# GView core: PDF carving, LNK flag decoding, type-plugin ordering

This project models three pieces of the GView binary viewer in Dafny and proves properties of them.

- **PDF carving** (`pdf_dropper.dfy`, module `DropperPdf`). This is the PDF dissector of the Dropper plugin. `Check` is given a candidate offset, a prefix already read there and a windowed view of the source.
  - It checks the `%PDF` magic and the version digits.
  - It then scans window by window for `%%EOF`.
  - At the first marker it looks back up to 200 positions for `xref`, `trailer` and `startxref`.
  - It writes the region it found into a `Finding`.
- **LNK flag decoding** (`lnk_internal.dfy`, module `LnkInternal`). These are the decoders of the shell-link type plugin. Five of them turn a flag word into the list of table enumerators whose bits are all set. A sixth builds the hot-key modifier text such as `NONE | SHIFT | ALT`. `GET_PAIR_FROM_ENUM` derives enumerator names.
- **Type-plugin descriptors** (`type_plugins.dfy`, module `GViewType`). These are the fixed-capacity byte patterns a file-type plugin is recognised by, and the plugin record. Its `operator<` orders plugins by priority, highest first, which is the order any sort of the application's list of type plugins by `operator<` leaves.

How the source takes each form in Dafny:
- `Check` is an imperative method over a `Finding` class. Its window loop is a method with loop invariants (`SearchEof`), and so are the marker search (`FindMarker`) and the keyword look-back (`LookBack`). The decision at a marker is `DecideAtMarker`.
- Each is proved against a specification function: `CheckSpec`, `ScanOutcome`, `ScanFrom`, `FirstMarker` and `HasKeyword`.
- The list decoders are one loop (`DecodeFlags`) proved against `Selected`.
- The hot-key decoder is a loop proved against `HotKeyHighText`.
- The plugin descriptors are datatypes with pure predicates.

The source can loop for ever, and it can read outside its window. Those situations are outcomes of their own (`Hangs`, `Undefined`), which the model returns where the source would go on.

uint64 arithmetic is written out as `Wrap64`, which reduces modulo 2^64. The finding's end and the window start use it. A window of 4 bytes therefore sends the scan one byte back, or, at offset 0, round to 2^64 − 1, which is past any source.

## Behaviour of the code worth knowing

The model follows the code in each case:

- **Missing `%%EOF`.** The loop of PDF.cpp lines 67-101 ends only on an empty window, so the `return false` at line 103 is reached only when `Get` returns nothing. That happens in three cases:
  - the offset is at or past the end of the source;
  - a scan with 4-byte windows wraps round from offset 0 to 2^64 − 1 (`FourByteWindowsDecline`);
  - the cache holds fewer than 8 bytes, which makes 0-byte windows, so even a complete PDF is declined (`ZeroWindowsDecline`).

  For windows of at least 6 bytes, by how many source bytes are left at the offset:
  - With at least 5 source bytes at the offset and no marker after it, once the last window has been searched, the next one is its own last 5 bytes, for ever (`CheckDecides`).
  - With 1 to 3 bytes left at the offset, the search reads outside the window (`UndefinedIffShortTail`).
  - With exactly 4 bytes left at an offset above 0, the scan steps back one byte to a 5-byte window. From there it hangs, or declines if that window is `%%EOF`.
  - With 0 bytes left, it declines.
  - `TailOutcomes` shows the exactly-4 and 0 cases on concrete inputs.

  With 5-byte windows (a cache of 40 to 47 bytes) and at least 5 bytes left at the offset, a passing header is never accepted (`FiveByteWindowsNeverAccept`). It is declined when the first window is `%%EOF`. Otherwise it hangs at the first window, even when a marker follows.

  See "## Findings".
- **Marker near a window start.** The look-back of lines 71-81 indexes the current window, not the source, although the comment at line 70 asks for the keywords before the end-of-file marker. A first marker found within the first 9 positions of a window is therefore always declined, because `startxref` cannot end before it inside that window (`MarkerNearWindowStartDeclined`). This happens to a `%%EOF` split across two windows, which the next window finds at index 1 to 4. See "## Findings".
- **Later markers.** The code inspects only the first marker after the offset and declines if its look-back lacks a keyword.
- **Finding on failure.** The code writes `finding.start` and `finding.end` as soon as the magic matches (lines 48-49), also when the version check or a later step declines.
- **Prefix length.** The code demands at least 8 prefix bytes, which is `sizeof` of the `uint64` magic constant. The comment at line 51 asks for a valid version such as `%PDF-1.x`, but the code never checks byte 4 (`-`) or byte 6 (`.`), and at that point its "more than 7 bytes" guard is always true.
- **Character signedness.** The code compares the version bytes as `char`. Every byte outside `'0'..'9'` is rejected whether `char` is signed or not, so the model compares bytes.

## Model

| member | source | states |
|---|---|---|
| DropperPdf.DescriptorConstants | GenericPlugins/Dropper/src/Documents/PDF.cpp:11-39 | the dissector is named "PDF" with category Documents, subcategory PDF, extension "pdf" and priority Binary, and never groups its findings in one file |
| DropperPdf.Check | GenericPlugins/Dropper/src/Documents/PDF.cpp:41-104 | returns the outcome `CheckSpec` gives. A failed length or magic check leaves the finding untouched. After the magic matches, start is the offset. End is offset + 8 (mod 2^64) unless the check accepts, in which case end is the accepted end and the result kind is Buffer |
| DropperPdf.SearchEof | GenericPlugins/Dropper/src/Documents/PDF.cpp:61-103 | the window loop returns exactly what `ScanOutcome` says: accepted at the first marker whose look-back holds the keywords, declined, or one of the cases where the source hangs or reads outside its window |
| DropperPdf.DataCache.Get | GenericPlugins/Dropper/src/Documents/PDF.cpp:61-62 | a window holds at most the requested number of bytes, exactly the source bytes from the offset on, cut at the end of the source, and nothing at or past the end |
| DropperPdf.FindMarker | GenericPlugins/Dropper/src/Documents/PDF.cpp:68-69 | returns the first `%%EOF` position of the window, and a position exactly when the window holds a marker |
| DropperPdf.LookBack | GenericPlugins/Dropper/src/Documents/PDF.cpp:71-82 | each flag is true exactly when its keyword starts at one of the positions [max(0, i − 200), i) |
| DropperPdf.DecideAtMarker | GenericPlugins/Dropper/src/Documents/PDF.cpp:71-94 | at a marker, accepts with the end right after the marker (mod 2^64) exactly when all three keywords start in its look-back range, and declines otherwise |
| DropperPdf.FirstMarker | GenericPlugins/Dropper/src/Documents/PDF.cpp:68-69 | a result is a marker at or after the start with no marker before it; no result means no marker |
| DropperPdf.MagicIsPercentPdf | GenericPlugins/Dropper/src/Documents/PDF.cpp:46 | the little-endian test against 0x46445025 holds exactly when the prefix starts with the bytes "%PDF" |
| DropperPdf.HeaderOkMeans | GenericPlugins/Dropper/src/Documents/PDF.cpp:43-58 | the header passes exactly when the prefix has at least 8 bytes, starts with "%PDF", and has '1' or '2' at index 5 and a digit at index 7 |
| DropperPdf.HeaderIgnoresOtherBytes | GenericPlugins/Dropper/src/Documents/PDF.cpp:43-58 | two prefixes that agree on being at least 8 bytes long and on bytes 0-3, 5 and 7 get the same outcome, so bytes 4 and 6 are never looked at |
| DropperPdf.ScanFindsFirstMarker | GenericPlugins/Dropper/src/Documents/PDF.cpp:61-100 | with windows of at least 6 bytes and 5 bytes left, the scan stops at the first `%%EOF` of the source at or after its start, including one split across windows, or gets stuck exactly when there is none |
| DropperPdf.ScanOverrunIffShortTail | GenericPlugins/Dropper/src/Documents/PDF.cpp:67-100 | with windows of at least 6 bytes the scan reads outside its window exactly when it starts on a tail of 1 to 3 bytes |
| DropperPdf.CheckDecides | GenericPlugins/Dropper/src/Documents/PDF.cpp:41-104 | with windows of at least 6 bytes and 5 bytes from offset, a valid header gets accepted, declined or hangs. It hangs exactly when no `%%EOF` follows. An accepted end lies in the source right after the first marker from offset, with each keyword wholly in the 200 bytes before it |
| DropperPdf.UndefinedIffShortTail | GenericPlugins/Dropper/src/Documents/PDF.cpp:43-69 | with windows of at least 6 bytes, the check reads outside its window exactly when the header passes and 1 to 3 bytes are left at offset, and never when the 8-byte prefix lies inside the source |
| DropperPdf.KeywordsPrecedeMarker | GenericPlugins/Dropper/src/Documents/PDF.cpp:72-81 | a keyword that starts before a marker also ends before it |
| DropperPdf.OverreadHarmless | GenericPlugins/Dropper/src/Documents/PDF.cpp:73-81 | the unguarded keyword comparisons give the same answer as bounded ones, whatever bytes lie past the window |
| DropperPdf.StartxrefContainsXref | GenericPlugins/Dropper/src/Documents/PDF.cpp:73-80 | a "startxref" at j has an "xref" at j + 5 |
| DropperPdf.XrefTestRedundant | GenericPlugins/Dropper/src/Documents/PDF.cpp:71-87 | before a marker, the three keyword tests pass exactly when the "trailer" and "startxref" tests do |
| DropperPdf.HangsWithoutEof | GenericPlugins/Dropper/src/Documents/PDF.cpp:67-101 | for a 16-byte source with a valid header, no `%%EOF` and 8-byte windows, the check hangs, and the corrected check declines |
| DropperPdf.TinyWindowReadsOutside | GenericPlugins/Dropper/src/Documents/PDF.cpp:62-68 | with 2-byte windows the check reads outside its window, and the corrected check declines |
| DropperPdf.FixedScanFindsFirstMarker | GenericPlugins/Dropper/src/Documents/PDF.cpp:67-100 | the corrected scan reports the first marker at or after its start, and the end of the source exactly when there is none |
| DropperPdf.FixedCheckDecides | GenericPlugins/Dropper/src/Documents/PDF.cpp:41-104 | the corrected check always accepts or declines. It declines when no marker follows. An accepted region is the one `CheckDecides` describes |
| DropperPdf.FixedCheckFirstMarker | GenericPlugins/Dropper/src/Documents/PDF.cpp:70-94 | with windows of at least 5 bytes of any size, when p is the first marker at or after offset, the corrected check accepts with end p + 5 exactly when the header passes and each keyword lies wholly in [offset, p), at most 200 bytes back, and declines otherwise |
| DropperPdf.SourceKeywordsMeans | GenericPlugins/Dropper/src/Documents/PDF.cpp:71-82 | before a marker at p, the corrected look-back over source positions finds all three keywords exactly when each lies wholly in [offset, p), at most 200 bytes before p |
| DropperPdf.LookBackAgreesInWindow | GenericPlugins/Dropper/src/Documents/PDF.cpp:71-82 | for a marker in the window that starts at c, the source's window look-back and the corrected look-back from c give the same answer |
| DropperPdf.MarkerNearWindowStartDeclined | GenericPlugins/Dropper/src/Documents/PDF.cpp:71-81 | a marker at index 0 to 8 of its window never passes the window look-back, because "startxref" cannot end before it inside the window |
| DropperPdf.MarkerAcrossWindowsDeclined | GenericPlugins/Dropper/src/Documents/PDF.cpp:61-100 | a 42-byte source with header, "trailer", "startxref" and `%%EOF` at 37 is accepted up to byte 42 with 64-byte windows but declined with 40-byte windows, where the marker straddles the first window and is found at index 2 of the next. The corrected check accepts it with either |
| DropperPdf.FourByteWindowsDecline | GenericPlugins/Dropper/src/Documents/PDF.cpp:61-100 | with 4-byte windows the 16-byte sample without `%%EOF` is declined, the start wrapping from 0 round to 2^64 − 1, and the corrected check declines too |
| DropperPdf.TailOutcomes | GenericPlugins/Dropper/src/Documents/PDF.cpp:61-103 | with 8-byte windows the 16-byte sample is declined at offset 16, its end, and hangs at offset 12, with 4 bytes left, after stepping back to offset 11. With 5-byte windows the 42-byte sample with a marker hangs at offset 0 |
| DropperPdf.ZeroWindowsDecline | GenericPlugins/Dropper/src/Documents/PDF.cpp:61-103 | with a cache of fewer than 8 bytes the check declines at every offset, whatever the source and prefix hold |
| DropperPdf.FiveByteWindowsNeverAccept | GenericPlugins/Dropper/src/Documents/PDF.cpp:61-103 | with 5-byte windows, a passing header and 5 bytes left at offset, the check declines exactly when a marker starts at offset and hangs otherwise, so it never accepts |
| LnkInternal.EnumName | Types/LNK/include/Internal.hpp:9-12 | the name is the longest suffix of the enumerator text without ':' |
| LnkInternal.EnumNameOfQualified | Types/LNK/include/Internal.hpp:9-12 | "Scope::Member" names "Member" |
| LnkInternal.FileAttributeFlagsTable | Types/LNK/include/Internal.hpp:17-48 | the table has 17 entries in map order, each a single bit |
| LnkInternal.LinkFlagsTable | Types/LNK/include/Internal.hpp:281-338 | the table has 27 entries in map order, each a single bit |
| LnkInternal.VolumeShellItemFlagsTable | Types/LNK/include/Internal.hpp:558-570 | the table has 4 entries in map order, each a single bit |
| LnkInternal.FileEntryShellItemFlagsTable | Types/LNK/include/Internal.hpp:597-610 | the table has 5 entries in map order, each a single bit |
| LnkInternal.NetworkShareFlagsTable | Types/LNK/include/Internal.hpp:896-905 | the table has 2 entries in map order, each a single bit |
| LnkInternal.SelectedMembers | Types/LNK/include/Internal.hpp:83-90 | a value is in the selection exactly when the table holds it and all its bits are set in the word |
| LnkInternal.SelectedAscending | Types/LNK/include/Internal.hpp:83-90 | a table in map order gives a strictly ascending selection |
| LnkInternal.SelectedNothing | Types/LNK/include/Internal.hpp:83-90 | the zero word selects nothing from a table of single bits |
| LnkInternal.SelectedList | Types/LNK/include/Internal.hpp:79-93 | for a table in map order with single bits, the selection has the exact members, is strictly ascending, and is empty for 0 |
| LnkInternal.SelectedBits | Types/LNK/include/Internal.hpp:79-93 | the one-bit word for bit k is decoded exactly when the table names it and bit k is set, so unknown bits are dropped |
| LnkInternal.DecodeFlags | Types/LNK/include/Internal.hpp:79-93 | the decoder loop returns the selection: exact members, strictly ascending, no longer than the table, and empty for 0 |
| LnkInternal.GetFileAttributeFlags | Types/LNK/include/Internal.hpp:79-93 | for the file-attribute table, the same as DecodeFlags, with at most 17 results |
| LnkInternal.GetLinkFlags | Types/LNK/include/Internal.hpp:406-420 | for the link-flag table, the same as DecodeFlags, with at most 27 results |
| LnkInternal.GetVolumeShellItemFlags | Types/LNK/include/Internal.hpp:572-586 | for the volume shell-item table and a flags byte, the same as DecodeFlags, with at most 4 results |
| LnkInternal.GetFileEntryShellItemFlags | Types/LNK/include/Internal.hpp:612-626 | for the file-entry shell-item table and a flags byte, the same as DecodeFlags, with at most 5 results |
| LnkInternal.GetNetworkShareFlags | Types/LNK/include/Internal.hpp:912-926 | for the network-share table, the same as DecodeFlags, with at most 2 results |
| LnkInternal.HotKeyHighText | Types/LNK/include/Internal.hpp:142-182 | the modifier text always starts with "NONE" |
| LnkInternal.HotKeyHighComplete | Types/LNK/include/Internal.hpp:155-174 | trying NONE, SHIFT, CONTROL and ALT in order gives "NONE", then " \| SHIFT", " \| CONTROL" and " \| ALT" for each set bit 0x01, 0x02, 0x04, so the text is never empty |
| LnkInternal.GetHotKeyHighFromFlags | Types/LNK/include/Internal.hpp:155-182 | the decoder returns that text, which starts with "NONE", so the fallback of lines 176-179 never changes it |
| LnkInternal.HotKeyHighIgnoresOtherBits | Types/LNK/include/Internal.hpp:157-174 | bits other than 0x01, 0x02 and 0x04 never change the text |
| GViewType.SimplePattern.Characters | GView/include/GViewApp.hpp:24-29 | the bytes in use are `count` of them. The bound of 21 is the invariant `Valid()` assumes, not a consequence: `SimplePattern::Init`, which sets the count, is not modelled |
| GViewType.EmptyIffNoCharacters | GView/include/GViewApp.hpp:35-38 | a well-formed pattern is empty exactly when it has no byte to match |
| GViewType.Plugin.Name | GView/include/GViewApp.hpp:40-48 | the name in use has `nameLength` bytes. The bound of 31 is the invariant `Valid()` assumes, not a consequence: `Plugin::Init`, which sets the length, is not modelled |
| GViewType.LessIsStrictWeakOrder | GView/include/GViewApp.hpp:67-70 | the plugin order is irreflexive, asymmetric and transitive, and plugins are incomparable exactly when their priorities are equal, which is itself transitive |
| GViewType.SortedMeansNonIncreasing | GView/include/GViewApp.hpp:67-70 | a plugin list is sorted by the plugin order exactly when its priorities do not increase |
| GViewType.NeighboursSuffice | GView/include/GViewApp.hpp:67-70 | a list is sorted exactly when each neighbouring pair is in order |
| GViewType.FirstHasHighestPriority | GView/include/GViewApp.hpp:67-70 | the first plugin of a sorted list has the highest priority in it |
| GViewType.SortedOrdersAgreeOnPriorities | GView/include/GViewApp.hpp:67-70 | any two sorted orders of the same plugins have the same priority at each position |

## Left out

- `DataCache`, `BufferView`, `IsMagicU32` and `CHECK` are not part of this model. Their behaviour is assumed:
  - `DataCache.Get(offset, size)` returns the source bytes from `offset` on, at most `size` of them, and nothing at or past the end.
  - `IsMagicU32` compares the first four bytes, read little-endian, with the magic.
  - `CHECK` returns its second argument when its condition fails. Its log message is not modelled.
- The relation between the prefix handed to `Check` and the source is not assumed. `UndefinedIffShortTail` states what follows when the prefix lies inside the source.
- DropperPdf.Check: where the source loops for ever or reads past its window, the model returns `Hangs` or `Undefined` instead of doing so.
- DropperPdf.CheckDecides: the scan is characterised only for windows of at least 6 bytes (a cache of at least 48 bytes). For smaller windows only `CheckSpec` itself describes the outcome.
- The `Result`, `Category`, `Subcategory` and `Priority` enumerations are declared elsewhere. Only the values this dissector uses are named; the others are single placeholder members.
- LnkInternal.SelectedBits: the property that the OR of the decoded flags equals the word masked to the table's bits is stated bit by bit, for each of the 32 single-bit words. The model defines no OR over a list of enumerators, so there is no word-level identity.
- The LNK decoders return enumerator values, as the source does. The names are in the tables but are not checked against `EnumName` of the enumerator text, because the tables are written out with literal names.
- The LNK description strings, GUID constants, packed structure layouts and the commented-out known-folder list are data or layout, not behaviour.
- `SimplePattern::Init`, `SimplePattern::Match`, `Plugin::Init`, `Plugin::Validate`, `LoadPlugin` and the `DefaultTypePlugin` functions are left out. Their bodies are not in the headers modelled. So are the function pointers into plugin libraries, which are foreign calls.
- GViewType.SimplePattern.Characters: `Count <= 21` is an invariant assumed through `Valid()`, not proved, because `SimplePattern::Init`, the member that sets `Count`, has no body in the headers modelled.
- GViewType.Plugin.Name: `NameLength <= 31` is an invariant assumed through `Valid()`, not proved, because `Plugin::Init`, the member that sets `NameLength`, has no body in the headers modelled.
- `SimplePattern` and `Plugin` are values here, not objects updated in place, because none of the members that update them has a body to model.
- The list `typePlugins` is declared at GView/include/GViewApp.hpp line 179, but the call that sorts it is not in the modelled headers. The ordering lemmas state what any sort with `operator<` leaves.
- The terminal user interface (`BufferView`, `App::Instance` menus and settings, `FileWindow`) is left out.

## Findings

| source | as written | input that shows it | evidently intended | confidence | as-written member | corrected member |
|---|---|---|---|---|---|---|
| GenericPlugins/Dropper/src/Documents/PDF.cpp:67-101 | the loop ends only on an empty window. With windows of at least 6 bytes (a cache of at least 48 bytes) and at least 5 source bytes at the offset, after the window that reaches the end of the source the next window starts 5 bytes before that end, holds 5 bytes and advances by 0, so a source with no `%%EOF` after the offset makes `Check` loop for ever | "%PDF-1.7", a line feed and seven zero bytes, a 64-byte cache, offset 0 | decline when the source ends with no marker | not executed | DropperPdf.HangsWithoutEof | DropperPdf.FixedCheckDecides |
| GenericPlugins/Dropper/src/Documents/PDF.cpp:68-69 | for a window of 1 to 3 bytes the `size_t` bound `len − 5 + 1` wraps round, and `memcmp` reads past the window | the same source with a 16-byte cache (2-byte windows), offset 0 | no marker can lie in a window shorter than 5 bytes, so decline | not executed | DropperPdf.TinyWindowReadsOutside | DropperPdf.FixedCheckDecides |
| GenericPlugins/Dropper/src/Documents/PDF.cpp:71-81 | the look-back runs from `i − 200`, or 0 when `i` is at most 200, to `i` as indexes of the current window (`buffer.GetData() + j`), not of the source. So a first marker at index 0 to 8 of a window after the first one is declined whatever precedes it, and every `%%EOF` split across two windows lands there | "%PDF-1.7", "trailer", "startxref" and `%%EOF` at 37, 42 bytes, with a 320-byte cache (40-byte windows), offset 0: declined, while a 512-byte cache accepts | look back over the 200 source positions before the marker, not before the offset, whichever window found it | not executed | DropperPdf.MarkerAcrossWindowsDeclined | DropperPdf.FixedCheckFirstMarker |

`FixedScanFrom` and `FixedCheckSpec` are the corrected definitions:
- they stop once a window reaches the end of the source, or when a window is too short to hold a marker;
- consecutive windows overlap by 4 bytes instead of 5, so every advance is positive. This second change matters only for 5-byte windows, whose advance would otherwise be 0. For windows of 6 or more bytes the stop at the end of the source alone removes the hang;
- the look-back (`SourceKeywords`) ranges over source positions [max(offset, p − 200), p) for the marker at source position p. In the window that starts at the offset it agrees with the source's look-back (`LookBackAgreesInWindow`).
