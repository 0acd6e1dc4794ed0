/**
 * The PDF carving dissector of the Dropper plugin.
 *
 * Check is handed a candidate offset, the few bytes already read there and a
 * windowed view of the whole source.  It accepts when the prefix carries the
 * "%PDF" magic and a plausible version digit pair (ISO 32000-1, section
 * 7.5.2), when a later "%%EOF" marker exists and when the keywords "xref",
 * "trailer" and "startxref" (ISO 32000-1, section 7.5.5) occur in the 200
 * positions before the first such marker.  The found region is written into
 * a Finding passed by reference.
 *
 * The source's loop can run for ever and can read outside its window; those
 * situations are outcomes of their own here (Hangs, Undefined), which the
 * model returns where the source would go on.
 */
module DropperPdf {

  /** uint64 arithmetic wraps modulo 2^64. */
  const U64: int := 0x1_0000_0000_0000_0000

  type byte = x: int | 0 <= x < 256

  /** x reduced modulo 2^64, for the values a sum or difference of two uint64 can take. */
  function Wrap64(x: int): (r: nat)
    requires -U64 <= x < 2 * U64
    ensures r < U64 && (r == x || r == x + U64 || r == x - U64)
  {
    if x < 0 then x + U64 else if x >= U64 then x - U64 else x
  }

  datatype Option<T> = None | Some(value: T)

  // ---------------------------------------------------------------------------
  // Constants (PDF.cpp lines 7-9)

  /** "%PDF" read as a little-endian 32-bit word, held in a uint64. */
  const IMAGE_PDF_MAGIC: int := 0x46445025
  /** sizeof(IMAGE_PDF_MAGIC): the constant is a uint64, so 8 bytes, not 4. */
  const MAGIC_SIZE: nat := 8
  /** "%%EOF" */
  const PDF_EOF: seq<byte> := [0x25, 0x25, 0x45, 0x4F, 0x46]
  const SEARCH_BACK_OFFSET: nat := 200
  /** "xref", "trailer", "startxref" */
  const XREF: seq<byte> := [0x78, 0x72, 0x65, 0x66]
  const TRAILER: seq<byte> := [0x74, 0x72, 0x61, 0x69, 0x6C, 0x65, 0x72]
  const STARTXREF: seq<byte> := [0x73, 0x74, 0x61, 0x72, 0x74, 0x78, 0x72, 0x65, 0x66]
  /** "%PDF" as bytes. */
  const PDF_SIGNATURE: seq<byte> := [0x25, 0x50, 0x44, 0x46]

  // ---------------------------------------------------------------------------
  // Descriptor getters (PDF.cpp lines 11-39)

  datatype Category = Documents | OtherCategory
  datatype Subcategory = PdfSubcategory | OtherSubcategory
  datatype Priority = Binary | OtherPriority

  function GetName(): string { "PDF" }
  function GetCategory(): Category { Documents }
  function GetSubcategory(): Subcategory { PdfSubcategory }
  function GetOutputExtension(): string { "pdf" }
  function GetPriority(): Priority { Binary }
  function ShouldGroupInOneFile(): bool { false }

  /** The dissector describes itself with fixed values and never groups its findings. */
  lemma DescriptorConstants()
    ensures GetName() == "PDF" && GetOutputExtension() == "pdf"
    ensures GetCategory() == Documents && GetSubcategory() == PdfSubcategory
    ensures GetPriority() == Binary && !ShouldGroupInOneFile()
  {
  }

  // ---------------------------------------------------------------------------
  // The byte source

  /**
   * A read-only source of L bytes with a cache size.  Get(offset, size, false)
   * returns the bytes from offset on, at most size of them, cut at the end of
   * the source, and nothing when offset is at or past the end.
   */
  datatype DataCache = DataCache(bytes: seq<byte>, cacheSize: nat) {

    /** The source length is a uint64. */
    predicate Valid() {
      |bytes| < U64
    }

    function Get(offset: nat, size: nat): (w: seq<byte>)
      ensures |w| <= size
      ensures offset >= |bytes| ==> w == []
      ensures offset < |bytes| ==> |w| == if size < |bytes| - offset then size else |bytes| - offset
      ensures offset + |w| <= |bytes| || w == []
      ensures offset + |w| <= |bytes| ==> w == bytes[offset..offset + |w|]
    {
      if offset >= |bytes| then []
      else if size < |bytes| - offset then bytes[offset..offset + size]
      else bytes[offset..]
    }
  }

  /** The window size the scan asks for: GetCacheSize() / 8. */
  function Window(file: DataCache): nat {
    file.cacheSize / 8
  }

  // ---------------------------------------------------------------------------
  // Prefix checks (lines 43-58)

  /** The first four bytes, read little-endian, equal magic. */
  predicate IsMagicU32(pre: seq<byte>, magic: int) {
    |pre| >= 4 && pre[0] as int + 0x100 * pre[1] as int + 0x1_0000 * pre[2] as int + 0x100_0000 * pre[3] as int == magic
  }

  /** Version byte 5 in '1'..'2' and sub-version byte 7 in '0'..'9', looked at only when the prefix has more than 7 bytes. */
  predicate VersionOk(pre: seq<byte>) {
    |pre| > 7 ==> 0x31 <= pre[5] <= 0x32 && 0x30 <= pre[7] <= 0x39
  }

  /** The part of the checks that decides whether finding.start and finding.end are written. */
  predicate MagicOk(pre: seq<byte>) {
    |pre| >= MAGIC_SIZE && IsMagicU32(pre, IMAGE_PDF_MAGIC)
  }

  predicate HeaderOk(pre: seq<byte>) {
    MagicOk(pre) && VersionOk(pre)
  }

  // ---------------------------------------------------------------------------
  // Markers and keywords

  /** "%%EOF" starts at k and lies wholly inside buf. */
  predicate MarkerAt(buf: seq<byte>, k: int) {
    0 <= k && k + |PDF_EOF| <= |buf| && buf[k..k + |PDF_EOF|] == PDF_EOF
  }

  /** The first marker start at or after from: the i loop of lines 68-96. */
  function FirstMarker(buf: seq<byte>, from: nat): (r: Option<nat>)
    decreases |buf| - from
    ensures r.Some? ==> from <= r.value && MarkerAt(buf, r.value)
    ensures r.Some? ==> forall k :: from <= k < r.value ==> !MarkerAt(buf, k)
    ensures r.None? ==> forall k :: from <= k ==> !MarkerAt(buf, k)
  {
    if from + |PDF_EOF| > |buf| then None
    else if MarkerAt(buf, from) then Some(from)
    else FirstMarker(buf, from + 1)
  }

  /**
   * kw starts at j and lies wholly inside buf.  The source compares without
   * this bounds guard; OverreadHarmless shows that it makes
   * no difference where the look-back uses it.
   */
  predicate Matches(buf: seq<byte>, j: int, kw: seq<byte>) {
    0 <= j && j + |kw| <= |buf| && buf[j..j + |kw|] == kw
  }

  /** kw starts at some position of [lo, hi). */
  predicate HasKeyword(buf: seq<byte>, lo: int, hi: int, kw: seq<byte>) {
    exists j :: lo <= j < hi && Matches(buf, j, kw)
  }

  /** Where the look-back of line 71 starts for a marker at i. */
  function SearchBackStart(i: nat): nat {
    if i > SEARCH_BACK_OFFSET then i - SEARCH_BACK_OFFSET else 0
  }

  /** All three trailer keywords start in the look-back range of a marker at i. */
  predicate TrailerKeywords(buf: seq<byte>, i: nat) {
    var lo := SearchBackStart(i);
    HasKeyword(buf, lo, i, XREF) && HasKeyword(buf, lo, i, TRAILER) && HasKeyword(buf, lo, i, STARTXREF)
  }

  // ---------------------------------------------------------------------------
  // The window scan (lines 61-101)

  /** How the scan from one window start ends. */
  datatype Scan =
    | EofAt(windowStart: nat, i: nat)  // first marker at i of the window that starts at windowStart
    | EndOfSource                      // Get returned an empty window
    | Stuck                            // a 5-byte window without marker: the advance is 0, the loop never ends
    | Overrun                          // a 1..3-byte window: the size_t bound len - 5 + 1 wraps and memcmp reads outside it

  /** A bound on the number of windows still to come, for termination. */
  function ScanMeasure(file: DataCache, cur: nat): nat {
    var L := |file.bytes|;
    if cur >= L then 0
    else if Window(file) <= 4 then cur + 1
    else if L - cur == 4 then 6
    else L - cur
  }

  /**
   * The scan from window start cur.  Each window without a marker moves the
   * start by len - 5 in uint64 arithmetic: forward when len > 5, not at all
   * when len == 5, one byte back (or round to 2^64 - 1) when len == 4.
   */
  function ScanFrom(file: DataCache, cur: nat): Scan
    requires file.Valid() && cur < U64
    decreases ScanMeasure(file, cur)
  {
    var buf := file.Get(cur, Window(file));
    if |buf| == 0 then EndOfSource
    else if |buf| < 4 then Overrun
    else match FirstMarker(buf, 0)
      case Some(i) => EofAt(cur, i)
      case None =>
        if |buf| == |PDF_EOF| then Stuck
        else
          var next := Wrap64(cur + |buf| - |PDF_EOF|);
          assert ScanMeasure(file, next) < ScanMeasure(file, cur) by {
            ScanAdvances(file, cur);
          }
          ScanFrom(file, next)
  }

  /** The advance after a window of 4 or more than 5 bytes brings the scan closer to its end. */
  lemma ScanAdvances(file: DataCache, cur: nat)
    requires file.Valid() && cur < U64
    requires var n := |file.Get(cur, Window(file))|; n == 4 || n > 5
    ensures ScanMeasure(file, Wrap64(cur + |file.Get(cur, Window(file))| - |PDF_EOF|)) < ScanMeasure(file, cur)
  {
    var L := |file.bytes|;
    var n := |file.Get(cur, Window(file))|;
    if n == 4 && cur == 0 {
      assert Wrap64(cur + n - |PDF_EOF|) == U64 - 1;
    } else {
      assert Wrap64(cur + n - |PDF_EOF|) == cur + n - 5;
    }
  }

  /** The windows on which the scan stops, spelled out case by case. */
  lemma ScanStep(file: DataCache, cur: nat)
    requires file.Valid() && cur < U64
    ensures var buf := file.Get(cur, Window(file));
      |buf| == 0 ==> ScanFrom(file, cur) == EndOfSource
    ensures var buf := file.Get(cur, Window(file));
      0 < |buf| < 4 ==> ScanFrom(file, cur) == Overrun
    ensures var buf := file.Get(cur, Window(file));
      |buf| >= 4 && FirstMarker(buf, 0).Some? ==> ScanFrom(file, cur) == EofAt(cur, FirstMarker(buf, 0).value)
    ensures var buf := file.Get(cur, Window(file));
      |buf| == |PDF_EOF| && FirstMarker(buf, 0).None? ==> ScanFrom(file, cur) == Stuck
  {
  }

  /** A window of 4 or more than 5 bytes without marker hands the scan on to the next window. */
  lemma ScanContinues(file: DataCache, cur: nat)
    requires file.Valid() && cur < U64
    requires var buf := file.Get(cur, Window(file));
      (|buf| == 4 || |buf| > |PDF_EOF|) && FirstMarker(buf, 0).None?
    ensures ScanFrom(file, cur) == ScanFrom(file, Wrap64(cur + |file.Get(cur, Window(file))| - |PDF_EOF|))
  {
  }

  // ---------------------------------------------------------------------------
  // What Check decides

  datatype Outcome =
    | Accepted(end: nat)  // Check returns true; end is the new finding.end
    | Declined            // Check returns false
    | Hangs               // Check never returns
    | Undefined           // Check reads outside the window it was given

  /** What Check decides for a prefix that passed the header checks. */
  function ScanOutcome(file: DataCache, offset: nat): Outcome
    requires file.Valid() && offset < U64
  {
    match ScanFrom(file, offset)
      case EndOfSource => Declined
      case Overrun => Undefined
      case Stuck => Hangs
      case EofAt(c, i) =>
        if TrailerKeywords(file.Get(c, Window(file)), i) then Accepted(Wrap64(c + i + |PDF_EOF|))
        else Declined
  }

  function CheckSpec(offset: nat, file: DataCache, pre: seq<byte>): Outcome
    requires file.Valid() && offset < U64
  {
    if HeaderOk(pre) then ScanOutcome(file, offset) else Declined
  }

  // ---------------------------------------------------------------------------
  // The dissector

  /** Other values of the Result enumeration are not part of this model. */
  datatype ResultKind = Buffer | OtherResult(code: nat)

  /** The region and result kind a dissector reports. */
  class Finding {
    var start: nat
    var end: nat
    var result: ResultKind

    constructor(start: nat, end: nat, result: ResultKind)
      ensures this.start == start && this.end == end && this.result == result
    {
      this.start := start;
      this.end := end;
      this.result := result;
    }
  }

  /**
   * PDF::Check.  Returns the outcome CheckSpec describes; where the source
   * would loop for ever or read outside its window it stops with Hangs or
   * Undefined instead.  finding.start and finding.end are written as soon as
   * the magic matches, also when a later check declines.
   */
  method Check(offset: nat, file: DataCache, precachedBuffer: seq<byte>, finding: Finding) returns (outcome: Outcome)
    requires file.Valid() && offset < U64
    modifies finding
    ensures outcome == CheckSpec(offset, file, precachedBuffer)
    ensures !MagicOk(precachedBuffer) ==>
      finding.start == old(finding.start) && finding.end == old(finding.end) && finding.result == old(finding.result)
    ensures MagicOk(precachedBuffer) ==> finding.start == offset
    ensures MagicOk(precachedBuffer) && !outcome.Accepted? ==>
      finding.end == Wrap64(offset + MAGIC_SIZE) && finding.result == old(finding.result)
    ensures outcome.Accepted? ==> finding.end == outcome.end && finding.result == Buffer
  {
    if |precachedBuffer| < MAGIC_SIZE {
      return Declined;
    }
    if !IsMagicU32(precachedBuffer, IMAGE_PDF_MAGIC) {
      return Declined;
    }

    finding.start := offset;
    finding.end := Wrap64(offset + MAGIC_SIZE);

    if |precachedBuffer| > 7 {
      var version := precachedBuffer[5];
      if !(0x31 <= version <= 0x32) {
        return Declined;
      }
      var subversion := precachedBuffer[7];
      if !(0x30 <= subversion <= 0x39) {
        return Declined;
      }
    }

    outcome := SearchEof(file, offset);
    if outcome.Accepted? {
      finding.end := outcome.end;
      finding.result := Buffer;
    }
  }

  /**
   * The loop of lines 61-101 that looks for "%%EOF" window by window and, at
   * the first one, for the trailer keywords before it.  Accepted carries the
   * value the source stores in finding.end.
   */
  method SearchEof(file: DataCache, offset: nat) returns (outcome: Outcome)
    requires file.Valid() && offset < U64
    ensures outcome == ScanOutcome(file, offset)
  {
    var currentOffset: nat := offset;
    var buffer := file.Get(currentOffset, Window(file));

    while |buffer| > 0
      invariant currentOffset < U64
      invariant buffer == file.Get(currentOffset, Window(file))
      invariant ScanFrom(file, currentOffset) == ScanFrom(file, offset)
      decreases ScanMeasure(file, currentOffset)
    {
      if |buffer| < 4 {
        // The bound |buffer| - 5 + 1 wraps round; memcmp would read past the window.
        ScanStep(file, currentOffset);
        return Undefined;
      }
      var marker := FindMarker(buffer);
      if marker.Some? {
        ScanStep(file, currentOffset);
        outcome := DecideAtMarker(buffer, currentOffset, marker.value);
        return;
      }
      if |buffer| == |PDF_EOF| {
        // The advance below would be 0 and the same window would come back for ever.
        ScanStep(file, currentOffset);
        return Hangs;
      }
      ScanAdvances(file, currentOffset);
      ScanContinues(file, currentOffset);
      currentOffset := Wrap64(currentOffset + |buffer| - |PDF_EOF|);
      buffer := file.Get(currentOffset, Window(file));
    }
    ScanStep(file, currentOffset);
    return Declined;
  }

  /**
   * Lines 71-94, at a marker at i of the window that starts at
   * currentOffset: accept with the end right after the marker when all three
   * keywords precede it, decline otherwise.
   */
  method DecideAtMarker(buffer: seq<byte>, currentOffset: nat, i: nat) returns (outcome: Outcome)
    requires currentOffset < U64 && |buffer| < U64 && MarkerAt(buffer, i)
    ensures outcome == if TrailerKeywords(buffer, i) then Accepted(Wrap64(currentOffset + i + |PDF_EOF|)) else Declined
  {
    var xrefFound, trailerFound, startxrefFound := LookBack(buffer, i);
    if !xrefFound || !trailerFound || !startxrefFound {
      return Declined;
    }
    var eofOffset := Wrap64(currentOffset + i);
    return Accepted(Wrap64(eofOffset + |PDF_EOF|));
  }

  /** The i loop of lines 68-96: the first position of a window where "%%EOF" starts. */
  method FindMarker(buffer: seq<byte>) returns (marker: Option<nat>)
    requires |buffer| >= 4
    ensures marker == FirstMarker(buffer, 0)
    ensures marker.Some? <==> exists k :: MarkerAt(buffer, k)
  {
    var i := 0;
    while i < |buffer| - |PDF_EOF| + 1
      invariant 0 <= i <= |buffer| - |PDF_EOF| + 1
      invariant FirstMarker(buffer, i) == FirstMarker(buffer, 0)
    {
      if buffer[i..i + |PDF_EOF|] == PDF_EOF {
        return Some(i);
      }
      i := i + 1;
    }
    return None;
  }

  /**
   * The j loop of lines 72-82: which of the three keywords start in the 200
   * positions before a marker at i.  The flags start out false: the source
   * sets them only here, and returns right after this loop.
   */
  method LookBack(buffer: seq<byte>, i: nat) returns (xrefFound: bool, trailerFound: bool, startxrefFound: bool)
    ensures xrefFound == HasKeyword(buffer, SearchBackStart(i), i, XREF)
    ensures trailerFound == HasKeyword(buffer, SearchBackStart(i), i, TRAILER)
    ensures startxrefFound == HasKeyword(buffer, SearchBackStart(i), i, STARTXREF)
  {
    xrefFound, trailerFound, startxrefFound := false, false, false;
    var searchBackOffset := if i > SEARCH_BACK_OFFSET then i - SEARCH_BACK_OFFSET else 0;
    for j := searchBackOffset to i
      invariant xrefFound == HasKeyword(buffer, searchBackOffset, j, XREF)
      invariant trailerFound == HasKeyword(buffer, searchBackOffset, j, TRAILER)
      invariant startxrefFound == HasKeyword(buffer, searchBackOffset, j, STARTXREF)
    {
      if !xrefFound && Matches(buffer, j, XREF) {
        xrefFound := true;
      }
      if !trailerFound && Matches(buffer, j, TRAILER) {
        trailerFound := true;
      }
      if !startxrefFound && Matches(buffer, j, STARTXREF) {
        startxrefFound := true;
      }
      KeywordStep(buffer, searchBackOffset, j, XREF);
      KeywordStep(buffer, searchBackOffset, j, TRAILER);
      KeywordStep(buffer, searchBackOffset, j, STARTXREF);
    }
  }

  /** Extending the look-back range by one position. */
  lemma KeywordStep(buf: seq<byte>, lo: int, j: int, kw: seq<byte>)
    ensures HasKeyword(buf, lo, j + 1, kw) == (HasKeyword(buf, lo, j, kw) || (lo <= j && Matches(buf, j, kw)))
  {
    if lo <= j && Matches(buf, j, kw) {
      assert lo <= j < j + 1 && Matches(buf, j, kw);
    }
  }

  // ---------------------------------------------------------------------------
  // The header

  /** The magic test is exactly "the prefix starts with %PDF". */
  lemma MagicIsPercentPdf(pre: seq<byte>)
    ensures IsMagicU32(pre, IMAGE_PDF_MAGIC) <==> |pre| >= 4 && pre[..4] == PDF_SIGNATURE
  {
    if IsMagicU32(pre, IMAGE_PDF_MAGIC) {
      assert pre[0] == 0x25 && pre[1] == 0x50 && pre[2] == 0x44 && pre[3] == 0x46;
      assert pre[..4] == PDF_SIGNATURE;
    }
    if |pre| >= 4 && pre[..4] == PDF_SIGNATURE {
      assert pre[0] == pre[..4][0] && pre[1] == pre[..4][1] && pre[2] == pre[..4][2] && pre[3] == pre[..4][3];
    }
  }

  /**
   * A prefix passes the header checks exactly when it has at least 8 bytes,
   * starts with "%PDF", has '1' or '2' at index 5 and a digit at index 7.
   * The source's "more than 7 bytes" guard is therefore always true where it
   * is reached.
   */
  lemma HeaderOkMeans(pre: seq<byte>)
    ensures HeaderOk(pre) <==>
      |pre| >= 8 && pre[..4] == PDF_SIGNATURE && 0x31 <= pre[5] <= 0x32 && 0x30 <= pre[7] <= 0x39
  {
    MagicIsPercentPdf(pre);
  }

  /**
   * Only the length, bytes 0-3, 5 and 7 of the prefix matter: the '-' at
   * index 4 and the '.' at index 6 are never looked at.
   */
  lemma HeaderIgnoresOtherBytes(offset: nat, file: DataCache, pre: seq<byte>, pre': seq<byte>)
    requires file.Valid() && offset < U64
    requires (|pre| >= 8) == (|pre'| >= 8)
    requires |pre| >= 8 ==> pre[..4] == pre'[..4] && pre[5] == pre'[5] && pre[7] == pre'[7]
    ensures CheckSpec(offset, file, pre) == CheckSpec(offset, file, pre')
  {
    HeaderOkMeans(pre);
    HeaderOkMeans(pre');
  }

  // ---------------------------------------------------------------------------
  // Windows and the whole source

  /** A marker wholly inside a window is a marker of the source at the same absolute position. */
  lemma WindowMarker(file: DataCache, c: nat, i: nat)
    requires i + |PDF_EOF| <= |file.Get(c, Window(file))|
    ensures MarkerAt(file.Get(c, Window(file)), i) <==> MarkerAt(file.bytes, c + i)
  {
    var buf := file.Get(c, Window(file));
    assert buf == file.bytes[c..c + |buf|];
    assert buf[i..i + |PDF_EOF|] == file.bytes[c + i..c + i + |PDF_EOF|];
  }

  /** A keyword match inside a window is a match in the source at the same absolute position. */
  lemma WindowMatches(file: DataCache, c: nat, j: nat, kw: seq<byte>)
    requires |kw| > 0
    requires Matches(file.Get(c, Window(file)), j, kw)
    ensures Matches(file.bytes, c + j, kw)
  {
    var buf := file.Get(c, Window(file));
    assert buf == file.bytes[c..c + |buf|];
    assert buf[j..j + |kw|] == file.bytes[c + j..c + j + |kw|];
  }

  /** No marker starts in [lo, hi) of the source. */
  ghost predicate NoMarkerIn(bytes: seq<byte>, lo: int, hi: int) {
    forall p :: lo <= p < hi ==> !MarkerAt(bytes, p)
  }

  /** No marker starts at or after lo. */
  ghost predicate NoMarkerFrom(bytes: seq<byte>, lo: int) {
    forall p :: lo <= p ==> !MarkerAt(bytes, p)
  }

  /**
   * r is what a correct scan from cur reports: the first marker at or after
   * cur, found inside window r.windowStart, or verdict absent exactly when
   * there is none.
   */
  ghost predicate ReportsFirstMarker(file: DataCache, cur: nat, r: Scan, absent: Scan) {
    match r
    case EofAt(c, i) =>
      cur <= c && MarkerAt(file.Get(c, Window(file)), i) && MarkerAt(file.bytes, c + i) &&
      NoMarkerIn(file.bytes, cur, c + i)
    case _ => r == absent && NoMarkerFrom(file.bytes, cur)
  }

  /** The window positions before k hold no marker, so neither do the source positions they stand for. */
  lemma WindowHasNoMarkerBefore(file: DataCache, cur: nat, k: nat)
    requires k + |PDF_EOF| - 1 <= |file.Get(cur, Window(file))|
    requires forall q :: 0 <= q < k ==> !MarkerAt(file.Get(cur, Window(file)), q)
    ensures NoMarkerIn(file.bytes, cur, cur + k)
  {
    forall p | cur <= p < cur + k
      ensures !MarkerAt(file.bytes, p)
    {
      WindowMarker(file, cur, p - cur);
    }
  }

  /** A first marker found from next is still the first one from cur when [cur, next) holds none. */
  lemma ReportsFirstMarkerExtend(file: DataCache, cur: nat, next: nat, r: Scan, absent: Scan)
    requires cur <= next && NoMarkerIn(file.bytes, cur, next)
    requires ReportsFirstMarker(file, next, r, absent)
    ensures ReportsFirstMarker(file, cur, r, absent)
  {
  }

  /** A window holding a marker reports it, and it is the first one from the window start. */
  lemma ScanFindsMarkerInWindow(file: DataCache, cur: nat)
    requires file.Valid() && cur < U64
    requires |file.Get(cur, Window(file))| >= 4 && FirstMarker(file.Get(cur, Window(file)), 0).Some?
    ensures ReportsFirstMarker(file, cur, ScanFrom(file, cur), Stuck)
  {
    ScanStep(file, cur);
    FirstMarkerOfWindow(file, cur, Stuck);
  }

  /** The first marker of the window at cur is the first marker of the source at or after cur. */
  lemma FirstMarkerOfWindow(file: DataCache, cur: nat, absent: Scan)
    requires FirstMarker(file.Get(cur, Window(file)), 0).Some?
    ensures ReportsFirstMarker(file, cur, EofAt(cur, FirstMarker(file.Get(cur, Window(file)), 0).value), absent)
  {
    var i := FirstMarker(file.Get(cur, Window(file)), 0).value;
    WindowMarker(file, cur, i);
    WindowHasNoMarkerBefore(file, cur, i);
  }

  /** A 5-byte window without marker, when windows are longer, is the end of the source: nothing follows. */
  lemma ScanStuckAtTail(file: DataCache, cur: nat)
    requires file.Valid() && cur < U64 && Window(file) >= 6
    requires |file.Get(cur, Window(file))| == |PDF_EOF| && FirstMarker(file.Get(cur, Window(file)), 0).None?
    ensures ReportsFirstMarker(file, cur, ScanFrom(file, cur), Stuck)
  {
    ScanStep(file, cur);
    WindowHasNoMarkerBefore(file, cur, 1);
    assert |file.bytes| == cur + |PDF_EOF|;
    assert NoMarkerFrom(file.bytes, cur) by {
      forall p | cur + 1 <= p
        ensures !MarkerAt(file.bytes, p)
      {
      }
    }
  }

  /**
   * With a window of at least 6 bytes and 5 bytes left, the scan finds the
   * first "%%EOF" of the source at or after cur, or gets stuck when there is
   * none.  Consecutive windows overlap by 5 bytes, so no marker that
   * straddles a window boundary is missed; the window that ends at the end
   * of the source is followed by its own last 5 bytes, for ever.
   */
  lemma {:induction false} ScanFindsFirstMarker(file: DataCache, cur: nat)
    requires file.Valid() && cur < U64 && Window(file) >= 6
    requires cur + |PDF_EOF| <= |file.bytes|
    decreases ScanMeasure(file, cur)
    ensures ReportsFirstMarker(file, cur, ScanFrom(file, cur), Stuck)
  {
    var buf := file.Get(cur, Window(file));
    assert |buf| >= |PDF_EOF|;
    if FirstMarker(buf, 0).Some? {
      ScanFindsMarkerInWindow(file, cur);
    } else if |buf| == |PDF_EOF| {
      ScanStuckAtTail(file, cur);
    } else {
      var next := ScanPassesWindow(file, cur);
      WindowHasNoMarkerBefore(file, cur, next - cur);
      ScanFindsFirstMarker(file, next);
      ReportsFirstMarkerExtend(file, cur, next, ScanFrom(file, next), Stuck);
    }
  }

  /** After a window of more than 5 bytes without marker the scan goes on at next, 5 bytes before the window's end, with 5 bytes left. */
  lemma ScanPassesWindow(file: DataCache, cur: nat) returns (next: nat)
    requires file.Valid() && cur < U64
    requires |file.Get(cur, Window(file))| > |PDF_EOF| && FirstMarker(file.Get(cur, Window(file)), 0).None?
    ensures next == cur + |file.Get(cur, Window(file))| - |PDF_EOF|
    ensures cur < next < U64 && next + |PDF_EOF| <= |file.bytes|
    ensures ScanMeasure(file, next) < ScanMeasure(file, cur)
    ensures ScanFrom(file, cur) == ScanFrom(file, next)
  {
    var n := |file.Get(cur, Window(file))|;
    next := cur + n - |PDF_EOF|;
    assert Wrap64(cur + n - |PDF_EOF|) == next;
    ScanAdvances(file, cur);
    ScanContinues(file, cur);
  }

  /**
   * With windows of at least 6 bytes the scan reads outside its window
   * exactly when it starts on a tail of 1 to 3 bytes.  A tail of 4 bytes
   * sends it one byte back (or, at offset 0, round to 2^64 - 1, past the end).
   */
  lemma ScanOverrunIffShortTail(file: DataCache, cur: nat)
    requires file.Valid() && cur < U64 && Window(file) >= 6
    ensures ScanFrom(file, cur) == Overrun <==> cur < |file.bytes| < cur + 4
  {
    var L := |file.bytes|;
    var buf := file.Get(cur, Window(file));
    ScanStep(file, cur);
    if L - cur == 4 {
      ScanContinues(file, cur);
      var next := Wrap64(cur + |buf| - |PDF_EOF|);
      if cur == 0 {
        assert next == U64 - 1;
        ScanStep(file, next);
      } else {
        assert next == cur - 1;
        ScanFindsFirstMarker(file, next);
      }
    } else if cur + |PDF_EOF| <= L {
      ScanFindsFirstMarker(file, cur);
    }
  }

  /**
   * The region an accepted check reports: it ends right after the first
   * "%%EOF" at or after offset, inside the source, and each of the three
   * keywords lies wholly in the 200 bytes before that marker, not before
   * offset.
   */
  ghost predicate AcceptedRegion(file: DataCache, offset: nat, end: int) {
    offset + |PDF_EOF| <= end <= |file.bytes| &&
    MarkerAt(file.bytes, end - |PDF_EOF|) && NoMarkerIn(file.bytes, offset, end - |PDF_EOF|) &&
    KeywordsBefore(file.bytes, offset, end - |PDF_EOF|)
  }

  /** A first marker whose window passes the keyword test gives an accepted region. */
  lemma AcceptedRegionOf(file: DataCache, offset: nat, c: nat, i: nat, absent: Scan)
    requires ReportsFirstMarker(file, offset, EofAt(c, i), absent)
    requires TrailerKeywords(file.Get(c, Window(file)), i)
    ensures AcceptedRegion(file, offset, c + i + |PDF_EOF|)
  {
    KeywordAbsolute(file, c, i, XREF);
    KeywordAbsolute(file, c, i, TRAILER);
    KeywordAbsolute(file, c, i, STARTXREF);
  }

  /**
   * With windows of at least 6 bytes and 5 bytes left from offset, a prefix
   * that passes the header checks leads to an accepted region, a decline or
   * a hang, and the check hangs exactly when no "%%EOF" follows offset: the
   * source's check never returns false for want of a marker.
   */
  lemma CheckDecides(offset: nat, file: DataCache, pre: seq<byte>)
    requires file.Valid() && offset < U64 && Window(file) >= 6
    requires HeaderOk(pre) && offset + |PDF_EOF| <= |file.bytes|
    ensures CheckSpec(offset, file, pre).Accepted? || CheckSpec(offset, file, pre).Declined? ||
      CheckSpec(offset, file, pre).Hangs?
    ensures CheckSpec(offset, file, pre) == Hangs <==> NoMarkerFrom(file.bytes, offset)
    ensures CheckSpec(offset, file, pre).Accepted? ==> AcceptedRegion(file, offset, CheckSpec(offset, file, pre).end)
  {
    ScanFindsFirstMarker(file, offset);
    var r := ScanFrom(file, offset);
    var o := CheckSpec(offset, file, pre);
    if !r.EofAt? {
      assert r == Stuck && o == Hangs;
    } else if TrailerKeywords(file.Get(r.windowStart, Window(file)), r.i) {
      var end := r.windowStart + r.i + |PDF_EOF|;
      AcceptedRegionOf(file, offset, r.windowStart, r.i, Stuck);
      assert Wrap64(end) == end;
      assert o == Accepted(end);
    } else {
      assert o == Declined;
    }
  }

  /**
   * With windows of at least 6 bytes the check reads outside its window
   * exactly when the header passes and only 1 to 3 bytes of the source are
   * left at offset; it cannot happen when the prefix was read from the
   * source at offset, since the header needs 8 bytes.
   */
  lemma UndefinedIffShortTail(offset: nat, file: DataCache, pre: seq<byte>)
    requires file.Valid() && offset < U64 && Window(file) >= 6
    ensures CheckSpec(offset, file, pre) == Undefined <==>
      HeaderOk(pre) && offset < |file.bytes| < offset + 4
    ensures HeaderOk(pre) && offset + |pre| <= |file.bytes| ==>
      offset + |PDF_EOF| <= |file.bytes| && CheckSpec(offset, file, pre) != Undefined
  {
    ScanOverrunIffShortTail(file, offset);
  }

  /** Each keyword lies wholly in [lo, p), at most 200 bytes before p. */
  ghost predicate KeywordsBefore(bytes: seq<byte>, lo: int, p: int) {
    KeywordBefore(bytes, lo, p, XREF) && KeywordBefore(bytes, lo, p, TRAILER) && KeywordBefore(bytes, lo, p, STARTXREF)
  }

  ghost predicate KeywordBefore(bytes: seq<byte>, lo: int, p: int, kw: seq<byte>) {
    exists q :: lo <= q && p - SEARCH_BACK_OFFSET <= q && q + |kw| <= p && Matches(bytes, q, kw)
  }

  /** A keyword found in the look-back of a window's marker, in source positions. */
  lemma KeywordAbsolute(file: DataCache, c: nat, i: nat, kw: seq<byte>)
    requires MarkerAt(file.Get(c, Window(file)), i)
    requires kw == XREF || kw == TRAILER || kw == STARTXREF
    requires HasKeyword(file.Get(c, Window(file)), SearchBackStart(i), i, kw)
    ensures KeywordBefore(file.bytes, c, c + i, kw)
  {
    var buf := file.Get(c, Window(file));
    var j :| SearchBackStart(i) <= j < i && Matches(buf, j, kw);
    KeywordsPrecedeMarker(buf, i, j, kw);
    WindowMatches(file, c, j, kw);
    assert c <= c + j && c + i - SEARCH_BACK_OFFSET <= c + j && c + j + |kw| <= c + i;
  }

  // ---------------------------------------------------------------------------
  // The keywords

  /** kw holds no '%', the byte every marker begins with. */
  predicate NoPercent(kw: seq<byte>) {
    forall k :: 0 <= k < |kw| ==> kw[k] != 0x25
  }

  lemma KeywordsHaveNoPercent()
    ensures NoPercent(XREF) && NoPercent(TRAILER) && NoPercent(STARTXREF)
  {
  }

  /** A keyword that starts before a marker ends before it. */
  lemma KeywordsPrecedeMarker(buf: seq<byte>, i: int, j: int, kw: seq<byte>)
    requires MarkerAt(buf, i) && j < i
    requires kw == XREF || kw == TRAILER || kw == STARTXREF
    requires Matches(buf, j, kw)
    ensures j + |kw| <= i
  {
    KeywordsHaveNoPercent();
    assert buf[i] == 0x25 by {
      assert buf[i..i + |PDF_EOF|][0] == buf[i];
    }
    // Were the keyword to reach the marker, kw[i - j] would be that '%'.
    forall k | j <= k < j + |kw|
      ensures buf[k] == kw[k - j]
    {
      assert buf[j..j + |kw|][k - j] == buf[k];
    }
  }

  /**
   * The source's memcmp calls have no bounds guard and may read up to 3
   * bytes past the window for a keyword that starts just before the marker;
   * whatever those bytes are (ext), the comparison finds a difference at the
   * marker first, so it agrees with the guarded Matches.
   */
  lemma OverreadHarmless(buf: seq<byte>, ext: seq<byte>, i: int, j: int, kw: seq<byte>)
    requires MarkerAt(buf, i) && 0 <= j < i
    requires kw == XREF || kw == TRAILER || kw == STARTXREF
    ensures Matches(buf + ext, j, kw) == Matches(buf, j, kw)
  {
    var b := buf + ext;
    assert b[..|buf|] == buf;
    assert MarkerAt(b, i) by {
      assert b[i..i + |PDF_EOF|] == buf[i..i + |PDF_EOF|];
    }
    if Matches(b, j, kw) {
      KeywordsPrecedeMarker(b, i, j, kw);
      assert b[j..j + |kw|] == buf[j..j + |kw|];
    }
    if Matches(buf, j, kw) {
      assert b[j..j + |kw|] == buf[j..j + |kw|];
    }
  }

  /** "startxref" ends in "xref". */
  lemma StartxrefContainsXref(buf: seq<byte>, j: int)
    requires Matches(buf, j, STARTXREF)
    ensures Matches(buf, j + 5, XREF)
  {
    assert buf[j + 5..j + 9] == buf[j..j + 9][5..9];
  }

  /** Before a marker, finding "startxref" implies finding "xref": the first of the three tests never decides. */
  lemma XrefTestRedundant(buf: seq<byte>, i: nat)
    requires MarkerAt(buf, i)
    ensures TrailerKeywords(buf, i) <==>
      HasKeyword(buf, SearchBackStart(i), i, TRAILER) && HasKeyword(buf, SearchBackStart(i), i, STARTXREF)
  {
    var lo := SearchBackStart(i);
    if HasKeyword(buf, lo, i, STARTXREF) {
      var j :| lo <= j < i && Matches(buf, j, STARTXREF);
      KeywordsPrecedeMarker(buf, i, j, STARTXREF);
      StartxrefContainsXref(buf, j);
      assert lo <= j + 5 < i;
    }
  }

  // ---------------------------------------------------------------------------
  // The scan as evidently intended

  /**
   * The scan with the loop ending once a window reaches the end of the
   * source, and consecutive windows overlapping by 4 bytes (one less than
   * the marker), so that every advance is positive.  A window too short to
   * hold a marker ends the scan as well.  For windows of 6 or more bytes the
   * stop at the end of the source alone would do; the smaller overlap
   * matters only for 5-byte windows, whose advance would otherwise be 0.
   */
  function FixedScanFrom(file: DataCache, cur: nat): Scan
    decreases |file.bytes| - cur
  {
    var buf := file.Get(cur, Window(file));
    if |buf| < |PDF_EOF| then EndOfSource
    else match FirstMarker(buf, 0)
      case Some(i) => EofAt(cur, i)
      case None =>
        if cur + |buf| == |file.bytes| then EndOfSource
        else FixedScanFrom(file, cur + |buf| - (|PDF_EOF| - 1))
  }

  /**
   * The look-back as evidently intended: each keyword starts at a source
   * position in [lo, p), lo being the later of offset and p - 200, whichever
   * window the marker at source position p was found in.
   */
  predicate SourceKeywords(bytes: seq<byte>, offset: nat, p: nat) {
    var lo := if p > offset + SEARCH_BACK_OFFSET then p - SEARCH_BACK_OFFSET else offset;
    HasKeyword(bytes, lo, p, XREF) && HasKeyword(bytes, lo, p, TRAILER) && HasKeyword(bytes, lo, p, STARTXREF)
  }

  /** Check with the corrected scan and look-back: it always returns, and declines when no "%%EOF" follows. */
  function FixedCheckSpec(offset: nat, file: DataCache, pre: seq<byte>): Outcome {
    if !HeaderOk(pre) then Declined
    else match FixedScanFrom(file, offset)
      case EofAt(c, i) =>
        if SourceKeywords(file.bytes, offset, c + i) then Accepted(c + i + |PDF_EOF|) else Declined
      case _ => Declined
  }

  /** With windows of at least 5 bytes the corrected scan reports the first marker, and EndOfSource when there is none. */
  lemma {:induction false} FixedScanFindsFirstMarker(file: DataCache, cur: nat)
    requires Window(file) >= |PDF_EOF|
    decreases |file.bytes| - cur
    ensures ReportsFirstMarker(file, cur, FixedScanFrom(file, cur), EndOfSource)
  {
    var buf := file.Get(cur, Window(file));
    var r := FixedScanFrom(file, cur);
    if |buf| < |PDF_EOF| || FirstMarker(buf, 0).Some? || cur + |buf| == |file.bytes| {
      FixedScanStops(file, cur);
    } else {
      var next := FixedScanNext(file, cur);
      FixedScanFindsFirstMarker(file, next);
      ReportsFirstMarkerExtend(file, cur, next, r, EndOfSource);
    }
  }

  /** A window of 5 or more bytes without marker that does not reach the end: the corrected scan goes on at next, with no marker in between. */
  lemma FixedScanNext(file: DataCache, cur: nat) returns (next: nat)
    requires var buf := file.Get(cur, Window(file));
      |buf| >= |PDF_EOF| && FirstMarker(buf, 0).None? && cur + |buf| != |file.bytes|
    ensures cur < next && NoMarkerIn(file.bytes, cur, next)
    ensures FixedScanFrom(file, cur) == FixedScanFrom(file, next)
  {
    var n := |file.Get(cur, Window(file))|;
    next := cur + n - (|PDF_EOF| - 1);
    WindowHasNoMarkerBefore(file, cur, n - (|PDF_EOF| - 1));
  }

  /** The windows on which the corrected scan stops report the first marker, or that there is none. */
  lemma FixedScanStops(file: DataCache, cur: nat)
    requires Window(file) >= |PDF_EOF|
    requires var buf := file.Get(cur, Window(file));
      |buf| < |PDF_EOF| || FirstMarker(buf, 0).Some? || cur + |buf| == |file.bytes|
    ensures ReportsFirstMarker(file, cur, FixedScanFrom(file, cur), EndOfSource)
  {
    var buf := file.Get(cur, Window(file));
    if |buf| < |PDF_EOF| {
      assert FixedScanFrom(file, cur) == EndOfSource;
      assert |file.bytes| < cur + |PDF_EOF|;
      assert NoMarkerFrom(file.bytes, cur);
    } else if FirstMarker(buf, 0).Some? {
      assert FixedScanFrom(file, cur) == EofAt(cur, FirstMarker(buf, 0).value);
      FirstMarkerOfWindow(file, cur, EndOfSource);
    } else {
      FixedScanPassesWindow(file, cur);
    }
  }

  /**
   * A window of 5 or more bytes without marker: no marker starts in it, and
   * the corrected scan either ends, at the end of the source, or goes on 4
   * bytes before the window's end.
   */
  lemma FixedScanPassesWindow(file: DataCache, cur: nat)
    requires |file.Get(cur, Window(file))| >= |PDF_EOF| && FirstMarker(file.Get(cur, Window(file)), 0).None?
    ensures var n := |file.Get(cur, Window(file))|;
      var next := cur + n - (|PDF_EOF| - 1);
      NoMarkerIn(file.bytes, cur, next) &&
      (cur + n == |file.bytes| ==> FixedScanFrom(file, cur) == EndOfSource && NoMarkerFrom(file.bytes, cur)) &&
      (cur + n != |file.bytes| ==> FixedScanFrom(file, cur) == FixedScanFrom(file, next))
  {
    var n := |file.Get(cur, Window(file))|;
    WindowHasNoMarkerBefore(file, cur, n - (|PDF_EOF| - 1));
  }

  /** Before a marker at p, the corrected look-back finds exactly the keywords that lie wholly in [offset, p), at most 200 bytes back. */
  lemma SourceKeywordsMeans(bytes: seq<byte>, offset: nat, p: nat)
    requires MarkerAt(bytes, p)
    ensures SourceKeywords(bytes, offset, p) <==> KeywordsBefore(bytes, offset, p)
  {
    SourceKeywordMeans(bytes, offset, p, XREF);
    SourceKeywordMeans(bytes, offset, p, TRAILER);
    SourceKeywordMeans(bytes, offset, p, STARTXREF);
  }

  lemma SourceKeywordMeans(bytes: seq<byte>, offset: nat, p: nat, kw: seq<byte>)
    requires MarkerAt(bytes, p)
    requires kw == XREF || kw == TRAILER || kw == STARTXREF
    ensures var lo := if p > offset + SEARCH_BACK_OFFSET then p - SEARCH_BACK_OFFSET else offset;
      HasKeyword(bytes, lo, p, kw) <==> KeywordBefore(bytes, offset, p, kw)
  {
    var lo := if p > offset + SEARCH_BACK_OFFSET then p - SEARCH_BACK_OFFSET else offset;
    if HasKeyword(bytes, lo, p, kw) {
      var j :| lo <= j < p && Matches(bytes, j, kw);
      KeywordsPrecedeMarker(bytes, p, j, kw);
      assert offset <= j && p - SEARCH_BACK_OFFSET <= j && j + |kw| <= p;
    }
    if KeywordBefore(bytes, offset, p, kw) {
      var q :| offset <= q && p - SEARCH_BACK_OFFSET <= q && q + |kw| <= p && Matches(bytes, q, kw);
      assert lo <= q < p;
    }
  }

  /**
   * In the window that starts at c the source's look-back and the corrected
   * one agree: the two differ only for markers found in a later window than
   * the first.
   */
  lemma LookBackAgreesInWindow(file: DataCache, c: nat, i: nat)
    requires MarkerAt(file.Get(c, Window(file)), i)
    ensures TrailerKeywords(file.Get(c, Window(file)), i) <==> SourceKeywords(file.bytes, c, c + i)
  {
    WindowMarker(file, c, i);
    SourceKeywordsMeans(file.bytes, c, c + i);
    WindowKeywordMeans(file, c, i, XREF);
    WindowKeywordMeans(file, c, i, TRAILER);
    WindowKeywordMeans(file, c, i, STARTXREF);
  }

  lemma WindowKeywordMeans(file: DataCache, c: nat, i: nat, kw: seq<byte>)
    requires MarkerAt(file.Get(c, Window(file)), i)
    requires kw == XREF || kw == TRAILER || kw == STARTXREF
    ensures HasKeyword(file.Get(c, Window(file)), SearchBackStart(i), i, kw) <==> KeywordBefore(file.bytes, c, c + i, kw)
  {
    if HasKeyword(file.Get(c, Window(file)), SearchBackStart(i), i, kw) {
      KeywordAbsolute(file, c, i, kw);
    }
    if KeywordBefore(file.bytes, c, c + i, kw) {
      KeywordInWindow(file, c, i, kw);
    }
  }

  /** A keyword that lies in [c, c + i), at most 200 bytes before c + i, is in the look-back of the window's marker at i. */
  lemma KeywordInWindow(file: DataCache, c: nat, i: nat, kw: seq<byte>)
    requires i <= |file.Get(c, Window(file))| && |kw| > 0
    requires KeywordBefore(file.bytes, c, c + i, kw)
    ensures HasKeyword(file.Get(c, Window(file)), SearchBackStart(i), i, kw)
  {
    var buf := file.Get(c, Window(file));
    var q :| c <= q && c + i - SEARCH_BACK_OFFSET <= q && q + |kw| <= c + i && Matches(file.bytes, q, kw);
    assert buf == file.bytes[c..c + |buf|];
    assert buf[q - c..q - c + |kw|] == file.bytes[q..q + |kw|];
    assert SearchBackStart(i) <= q - c < i && Matches(buf, q - c, kw);
  }

  /**
   * With windows of at least 5 bytes, whatever the window size, the corrected
   * check accepts exactly when the header passes and the keywords lie in the
   * 200 bytes before the first marker p at or after offset; the region then
   * ends right after p.
   */
  lemma FixedCheckFirstMarker(offset: nat, file: DataCache, pre: seq<byte>, p: nat)
    requires Window(file) >= |PDF_EOF|
    requires offset <= p && MarkerAt(file.bytes, p) && NoMarkerIn(file.bytes, offset, p)
    ensures FixedCheckSpec(offset, file, pre) ==
      if HeaderOk(pre) && KeywordsBefore(file.bytes, offset, p) then Accepted(p + |PDF_EOF|) else Declined
  {
    FixedScanFindsFirstMarker(file, offset);
    var r := FixedScanFrom(file, offset);
    assert r.EofAt?;
    assert r.windowStart + r.i == p by {
      assert !(r.windowStart + r.i < p);
      assert !(p < r.windowStart + r.i);
    }
    SourceKeywordsMeans(file.bytes, offset, p);
  }

  /**
   * The corrected check never hangs and never reads outside its window: it
   * declines when no marker follows offset, and an accepted region ends
   * right after the first marker, with the keywords before it.
   */
  lemma FixedCheckDecides(offset: nat, file: DataCache, pre: seq<byte>)
    requires Window(file) >= |PDF_EOF|
    ensures FixedCheckSpec(offset, file, pre).Accepted? || FixedCheckSpec(offset, file, pre).Declined?
    ensures NoMarkerFrom(file.bytes, offset) ==> FixedCheckSpec(offset, file, pre) == Declined
    ensures FixedCheckSpec(offset, file, pre).Accepted? ==>
      HeaderOk(pre) && AcceptedRegion(file, offset, FixedCheckSpec(offset, file, pre).end)
  {
    FixedScanFindsFirstMarker(file, offset);
    var r := FixedScanFrom(file, offset);
    if r.EofAt? {
      FixedCheckFirstMarker(offset, file, pre, r.windowStart + r.i);
    }
  }

  /** "%PDF-1.7", a line feed and seven zero bytes: a well-formed header and no "%%EOF". */
  const SAMPLE_WITHOUT_EOF: seq<byte> := [0x25, 0x50, 0x44, 0x46, 0x2D, 0x31, 0x2E, 0x37, 0x0A, 0, 0, 0, 0, 0, 0, 0]

  /**
   * On that source, with a 64-byte cache (8-byte windows) and its own first
   * bytes as prefix, the source's check never returns; the corrected one
   * declines.
   */
  lemma HangsWithoutEof()
    ensures CheckSpec(0, DataCache(SAMPLE_WITHOUT_EOF, 64), SAMPLE_WITHOUT_EOF[..8]) == Hangs
    ensures FixedCheckSpec(0, DataCache(SAMPLE_WITHOUT_EOF, 64), SAMPLE_WITHOUT_EOF[..8]) == Declined
  {
    var file := DataCache(SAMPLE_WITHOUT_EOF, 64);
    var pre := SAMPLE_WITHOUT_EOF[..8];
    HeaderOkMeans(pre);
    assert pre[..4] == PDF_SIGNATURE;
    assert NoMarkerFrom(file.bytes, 0) by {
      forall p | 0 <= p
        ensures !MarkerAt(file.bytes, p)
      {
        if p + |PDF_EOF| <= |file.bytes| {
          // Only byte 0 is a '%', and byte 1 is not.
          assert file.bytes[p..p + |PDF_EOF|][0] == file.bytes[p];
          assert file.bytes[p..p + |PDF_EOF|][1] == file.bytes[p + 1];
        }
      }
    }
    CheckDecides(0, file, pre);
    FixedCheckDecides(0, file, pre);
  }

  /**
   * With a 16-byte cache the windows hold 2 bytes: the source's bound
   * 2 - 5 + 1 wraps round and memcmp reads outside the window, while the
   * corrected check declines.
   */
  lemma TinyWindowReadsOutside()
    ensures CheckSpec(0, DataCache(SAMPLE_WITHOUT_EOF, 16), SAMPLE_WITHOUT_EOF[..8]) == Undefined
    ensures FixedCheckSpec(0, DataCache(SAMPLE_WITHOUT_EOF, 16), SAMPLE_WITHOUT_EOF[..8]) == Declined
  {
    var pre := SAMPLE_WITHOUT_EOF[..8];
    HeaderOkMeans(pre);
    assert pre[..4] == PDF_SIGNATURE;
    ScanStep(DataCache(SAMPLE_WITHOUT_EOF, 16), 0);
  }

  /**
   * A marker within the first 9 bytes of its window is always declined:
   * "startxref" would have to end before it, inside the window.
   */
  lemma MarkerNearWindowStartDeclined(buf: seq<byte>, i: nat)
    requires MarkerAt(buf, i) && i < |STARTXREF|
    ensures !TrailerKeywords(buf, i)
  {
    if HasKeyword(buf, SearchBackStart(i), i, STARTXREF) {
      var j :| SearchBackStart(i) <= j < i && Matches(buf, j, STARTXREF);
      KeywordsPrecedeMarker(buf, i, j, STARTXREF);
    }
  }

  /**
   * "%PDF-1.7", "trailer", "startxref" (holding "xref") and "%%EOF" at 37,
   * each line ended by a line feed: 42 bytes.
   */
  const SAMPLE_WITH_TRAILER: seq<byte> :=
    [0x25, 0x50, 0x44, 0x46, 0x2D, 0x31, 0x2E, 0x37, 0x0A] + TRAILER + [0x0A] + STARTXREF +
    [0x0A, 0x30, 0x0A, 0x0A, 0x0A, 0x0A, 0x0A, 0x0A, 0x0A, 0x0A, 0x0A] + PDF_EOF

  /** The one marker of that sample is at 37, with the three keywords before it. */
  lemma SampleWithTrailerFacts()
    ensures |SAMPLE_WITH_TRAILER| == 42 && HeaderOk(SAMPLE_WITH_TRAILER[..8])
    ensures MarkerAt(SAMPLE_WITH_TRAILER, 37) && NoMarkerIn(SAMPLE_WITH_TRAILER, 0, 37)
    ensures KeywordsBefore(SAMPLE_WITH_TRAILER, 0, 37)
  {
    var s := SAMPLE_WITH_TRAILER;
    HeaderOkMeans(s[..8]);
    assert s[..8][..4] == PDF_SIGNATURE by {
      assert s[..8][..4] == s[..4];
    }
    SampleMarker();
    SampleKeywords();
  }

  lemma SampleMarker()
    ensures MarkerAt(SAMPLE_WITH_TRAILER, 37) && NoMarkerIn(SAMPLE_WITH_TRAILER, 0, 37)
  {
    var s := SAMPLE_WITH_TRAILER;
    assert s[37..42] == PDF_EOF;
    forall p | 0 <= p < 37
      ensures !MarkerAt(s, p)
    {
      // Only byte 0 is a '%' before 37, and byte 1 is not.
      assert s[p..p + |PDF_EOF|][0] == s[p];
      assert s[p..p + |PDF_EOF|][1] == s[p + 1];
    }
  }

  lemma SampleKeywords()
    ensures KeywordsBefore(SAMPLE_WITH_TRAILER, 0, 37)
  {
    var s := SAMPLE_WITH_TRAILER;
    assert Matches(s, 22, XREF) by {
      assert s[22..26] == XREF;
    }
    assert Matches(s, 9, TRAILER) by {
      assert s[9..16] == TRAILER;
    }
    assert Matches(s, 17, STARTXREF) by {
      assert s[17..26] == STARTXREF;
    }
    assert KeywordBefore(s, 0, 37, XREF) by {
      assert 0 <= 22 && 37 - SEARCH_BACK_OFFSET <= 22 && 22 + |XREF| <= 37;
    }
    assert KeywordBefore(s, 0, 37, TRAILER) by {
      assert 0 <= 9 && 37 - SEARCH_BACK_OFFSET <= 9 && 9 + |TRAILER| <= 37;
    }
    assert KeywordBefore(s, 0, 37, STARTXREF) by {
      assert 0 <= 17 && 37 - SEARCH_BACK_OFFSET <= 17 && 17 + |STARTXREF| <= 37;
    }
  }

  /**
   * With a 512-byte cache (64-byte windows) the source's check accepts that
   * sample up to its end.  With a 320-byte cache (40-byte windows) the marker
   * at 37 does not fit in the first window and is found at 2 of the next one,
   * which starts at 35; its look-back covers only 2 bytes and the source's
   * check declines.  The corrected check accepts with either cache.
   */
  lemma MarkerAcrossWindowsDeclined()
    ensures CheckSpec(0, DataCache(SAMPLE_WITH_TRAILER, 512), SAMPLE_WITH_TRAILER[..8]) == Accepted(42)
    ensures CheckSpec(0, DataCache(SAMPLE_WITH_TRAILER, 320), SAMPLE_WITH_TRAILER[..8]) == Declined
    ensures FixedCheckSpec(0, DataCache(SAMPLE_WITH_TRAILER, 320), SAMPLE_WITH_TRAILER[..8]) == Accepted(42)
    ensures FixedCheckSpec(0, DataCache(SAMPLE_WITH_TRAILER, 512), SAMPLE_WITH_TRAILER[..8]) == Accepted(42)
  {
    SampleWithTrailerFacts();
    var s := SAMPLE_WITH_TRAILER;
    FixedCheckFirstMarker(0, DataCache(s, 320), s[..8], 37);
    FixedCheckFirstMarker(0, DataCache(s, 512), s[..8], 37);
    LargeWindowAccepts();
    SplitWindowDeclines();
  }

  lemma LargeWindowAccepts()
    requires |SAMPLE_WITH_TRAILER| == 42 && HeaderOk(SAMPLE_WITH_TRAILER[..8])
    requires MarkerAt(SAMPLE_WITH_TRAILER, 37) && NoMarkerIn(SAMPLE_WITH_TRAILER, 0, 37)
    requires KeywordsBefore(SAMPLE_WITH_TRAILER, 0, 37)
    ensures CheckSpec(0, DataCache(SAMPLE_WITH_TRAILER, 512), SAMPLE_WITH_TRAILER[..8]) == Accepted(42)
  {
    var file := DataCache(SAMPLE_WITH_TRAILER, 512);
    var buf := file.Get(0, Window(file));
    assert buf == file.bytes;
    ScanStep(file, 0);
    var i := FirstMarker(buf, 0).value;
    assert i == 37;
    LookBackAgreesInWindow(file, 0, 37);
    SourceKeywordsMeans(file.bytes, 0, 37);
  }

  lemma SplitWindowDeclines()
    requires |SAMPLE_WITH_TRAILER| == 42 && HeaderOk(SAMPLE_WITH_TRAILER[..8])
    requires MarkerAt(SAMPLE_WITH_TRAILER, 37) && NoMarkerIn(SAMPLE_WITH_TRAILER, 0, 37)
    ensures CheckSpec(0, DataCache(SAMPLE_WITH_TRAILER, 320), SAMPLE_WITH_TRAILER[..8]) == Declined
  {
    var file := DataCache(SAMPLE_WITH_TRAILER, 320);
    var first := file.Get(0, Window(file));
    assert |first| == 40;
    assert FirstMarker(first, 0).None? by {
      if FirstMarker(first, 0).Some? {
        WindowMarker(file, 0, FirstMarker(first, 0).value);
      }
    }
    ScanContinues(file, 0);
    assert Wrap64(0 + 40 - |PDF_EOF|) == 35;
    var second := file.Get(35, Window(file));
    assert |second| == 7;
    WindowMarker(file, 35, 2);
    ScanStep(file, 35);
    var i := FirstMarker(second, 0).value;
    WindowMarker(file, 35, i);
    assert i == 2;
    MarkerNearWindowStartDeclined(second, 2);
  }

  /**
   * With a 32-byte cache the windows hold 4 bytes: from 0 the scan steps back
   * one byte, wraps round to 2^64 - 1, reads nothing there and declines; the
   * corrected check declines too.
   */
  lemma FourByteWindowsDecline()
    ensures CheckSpec(0, DataCache(SAMPLE_WITHOUT_EOF, 32), SAMPLE_WITHOUT_EOF[..8]) == Declined
    ensures FixedCheckSpec(0, DataCache(SAMPLE_WITHOUT_EOF, 32), SAMPLE_WITHOUT_EOF[..8]) == Declined
  {
    var file := DataCache(SAMPLE_WITHOUT_EOF, 32);
    var pre := SAMPLE_WITHOUT_EOF[..8];
    HeaderOkMeans(pre);
    assert pre[..4] == PDF_SIGNATURE;
    ScanContinues(file, 0);
    assert Wrap64(0 + 4 - |PDF_EOF|) == U64 - 1;
    ScanStep(file, U64 - 1);
  }

  /**
   * The other ends of the scan, for windows of 5 bytes or more: with 8-byte
   * windows, an offset at the end of the source gives an empty window and a
   * decline; exactly 4 bytes left at offset 12 send the scan back to a
   * 5-byte window at 11 without marker, where it stays.  With 5-byte windows
   * the first window already stays put, although a marker follows.
   */
  lemma TailOutcomes()
    ensures CheckSpec(16, DataCache(SAMPLE_WITHOUT_EOF, 64), SAMPLE_WITHOUT_EOF[..8]) == Declined
    ensures CheckSpec(12, DataCache(SAMPLE_WITHOUT_EOF, 64), SAMPLE_WITHOUT_EOF[..8]) == Hangs
    ensures CheckSpec(0, DataCache(SAMPLE_WITH_TRAILER, 40), SAMPLE_WITH_TRAILER[..8]) == Hangs
  {
    var pre := SAMPLE_WITHOUT_EOF[..8];
    HeaderOkMeans(pre);
    assert pre[..4] == PDF_SIGNATURE;
    EndOffsetDeclines();
    FourLeftHangs();
    SampleWithTrailerFacts();
    FiveByteWindowsHang();
  }

  lemma EndOffsetDeclines()
    requires HeaderOk(SAMPLE_WITHOUT_EOF[..8])
    ensures CheckSpec(16, DataCache(SAMPLE_WITHOUT_EOF, 64), SAMPLE_WITHOUT_EOF[..8]) == Declined
  {
    ScanStep(DataCache(SAMPLE_WITHOUT_EOF, 64), 16);
  }

  lemma FourLeftHangs()
    requires HeaderOk(SAMPLE_WITHOUT_EOF[..8])
    ensures CheckSpec(12, DataCache(SAMPLE_WITHOUT_EOF, 64), SAMPLE_WITHOUT_EOF[..8]) == Hangs
  {
    var file := DataCache(SAMPLE_WITHOUT_EOF, 64);
    ScanContinues(file, 12);
    assert Wrap64(12 + 4 - |PDF_EOF|) == 11;
    assert file.Get(11, Window(file))[0] == 0;
    ScanStep(file, 11);
  }

  lemma FiveByteWindowsHang()
    requires HeaderOk(SAMPLE_WITH_TRAILER[..8]) && |SAMPLE_WITH_TRAILER| == 42
    ensures CheckSpec(0, DataCache(SAMPLE_WITH_TRAILER, 40), SAMPLE_WITH_TRAILER[..8]) == Hangs
  {
    var small := DataCache(SAMPLE_WITH_TRAILER, 40);
    assert small.Get(0, Window(small))[1] == 0x50;
    ScanStep(small, 0);
  }

  /** A cache of fewer than 8 bytes gives 0-byte windows: Get returns nothing and the check declines, whatever the source holds. */
  lemma ZeroWindowsDecline(offset: nat, file: DataCache, pre: seq<byte>)
    requires file.Valid() && offset < U64 && file.cacheSize < 8
    ensures CheckSpec(offset, file, pre) == Declined
  {
    ScanStep(file, offset);
  }

  /**
   * With 5-byte windows (a cache of 40 to 47 bytes) and 5 bytes left at
   * offset, a passing header never gets accepted: the check declines when
   * the first window is a marker, whose look-back is empty, and otherwise
   * advances by 0 for ever, even when a marker follows.
   */
  lemma FiveByteWindowsNeverAccept(offset: nat, file: DataCache, pre: seq<byte>)
    requires file.Valid() && offset < U64 && Window(file) == |PDF_EOF|
    requires HeaderOk(pre) && offset + |PDF_EOF| <= |file.bytes|
    ensures CheckSpec(offset, file, pre) == if MarkerAt(file.bytes, offset) then Declined else Hangs
  {
    var buf := file.Get(offset, Window(file));
    WindowMarker(file, offset, 0);
    ScanStep(file, offset);
    if MarkerAt(file.bytes, offset) {
      assert FirstMarker(buf, 0) == Some(0);
      MarkerNearWindowStartDeclined(buf, 0);
    }
  }
}
