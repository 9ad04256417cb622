# PocketWiki: model and proofs

PocketWiki serves an offline encyclopedia from a small microcontroller. This
Dafny project models the parts of it that compute over bytes or keep state, and
proves what they promise. Each module follows one source file; operations that
the source runs in place are methods on arrays or classes, proved against
functions, and the properties are lemmas about those functions.

`dafny verify dfyconfig.toml` covers the whole project.

## The parts

**QR symbol** (`firmware/main/qr_code.c`, ISO/IEC 18004:2000 sections 8.4 to
8.9). `Gf256`, `ReedSolomon` and `RsCode` give the field, the in-place
generator and remainder loops, and the code they produce: generators, unique
check bytes, minimum distance. `QrBits` packs the message, `QrGrid` draws the
function patterns, `QrPlacement` proves the zigzag a bijection, `QrPenalty`
proves the one-pass counters against maximal runs, `QrMask` chooses the mask.
`QrSymbol` says what the symbol of a text is without saying how to compute it,
`QrReader` is a reader that follows the standard, and `QrEncode` closes the
loop: for every C string the encoder leaves the symbol in the smallest version
that holds it, with the least penalty of the eight masks, and that reader gets
the text back. `QrDamage` says how far modules may change colour with the text
still determined. What a reader could share with the encoder is compared with
drawings and tables: `QrPicture` draws the finder, alignment and timing patterns,
the format words and the masks, and says which way the zigzag runs; `QrCodewords`
has the table of versions and the codewords byte by byte; `QrScores` works the
penalty out by hand where that can be done.

**Titles and archives** (`title_lookup.c`, `content_archive.c`,
`archive_format.py`, `pack_content.py`). `TitleNormalize` shows that the
firmware's and the host's normalizers both compute "split on white space, lower
the case, join with one space". `TitleLookup` proves the firmware's binary
searches and its batched, windowed word search equal to filters over the title
list; `ArchiveSearch` does the same for the host. `TitleLetters` writes the letters
out and builds a normal form from those of a title's parts. `ArchiveFormat` has the byte
layout and the acceptance conditions, `ArchiveReader` the firmware's
validators and readers, `ArchiveHost` the host's index writer and parser, and
`PackBuilder` the layout of a build, from the duplicate test to an archive both
sides accept. `ArchiveDamage` has the layouts in numbers and shows what one changed
byte does to a pack: the wrapper's CRC is a check of every byte it covers.
`ArchiveServed` follows a built archive to the device: every title
gives the bytes of its article. `ArchiveGaps` builds accepted archives on which
lookup fails.

**Catalogue** (`catalog_index.c`, `build_pack_catalog.py`). `CatalogIndex` is
the one-character-at-a-time scanner. `CatalogText` describes JSON texts by
their parts, with arbitrary white space, a free choice between a character and
its escape, any order of members and any nesting outside the packs, and proves
that the scanner folds the document's meaning, up to the point where it fails if
it does. `CatalogFind` and `CatalogNames` say what the passes answer in terms of
the catalogue; `CatalogPrinter` prints any release as the publishing tool does
and says what the device reads back; `CatalogGaps` has documents in that layout
that are not read as they are meant. `CatalogCut` is about documents that are cut
off, and `CatalogValues` about what an entry must have. Because `Scanner.Run` depends only on the
characters delivered, how the stream is cut into reads is invisible. A character
of the text stands for one byte of the stream. The strings of a release are of
Unicode characters; what is printed of them is ASCII, a byte for each character.

**Pack store and Bluetooth upload** (`pack_store.c`, `ble_provisioning.c`).
`FileStore` is a FAT directory: names compare without case, and a rename does
not replace. `PackStore.Store` holds the active archive, the metadata cache and
the directory; `PackListing` says what the list of packs shows of it, and
`BleUpload.Ble` adds the upload protocol, in which each message does what the
predicate named after it says. Every call that can
fail takes a flag, so contracts cover every combination of failures. A ghost
field of the store records the directory after every operation on it. Files that
contents are read from are whole byte strings, and a file that is served stays
open with the bytes it had.

## Findings

Where the code does not do what its documentation or design says, the model
follows the code and states exactly when the two agree.

- `docs/ARCHIVE_FORMAT.md` says that the firmware verifies the title order. Its
  index validator does not look at titles: `ArchiveGaps.UnsortedAccepted` gives,
  for any two titles that are not in order, an archive that it accepts and the
  host's parser refuses. `ArchiveHost.HostVersusFirmware` has the difference
  between the two validators in both directions.
- The firmware's validators do not bound normalized titles, and lookup reads them
  into fixed buffers. On any accepted archive (`ArchiveReader.TitlesReadable`)
  the word search fails exactly when a title of more than 255 bytes stands before
  its last hit (`TitleLookup.WordStartSearch`), and the exact and prefix searches
  exactly when they meet one of more than 256 (`TitleLookup.Exact`,
  `TitleLookup.Prefix`). `ArchiveGaps.LongTitleStopsScan` and
  `ArchiveGaps.LongerTitleHides` run them on such archives.
- The comment in `catalog_index.h` says that the header pass stops at the packs
  array. It reads to the end, as the comment in `catalog_index.c` explains.
- The schema test compares an `int`, so a document passes as schema 1 exactly when
  its schema is 1 modulo 2^32 and fits 64 bits (`CatalogPrinter.ValidatesAs`).
  `CatalogGaps.SchemaWraps` is a document of schema 4294967297 that the device
  accepts.
- The names pass counts a slot each time a listed pack has its id and stops when
  the count reaches the number of slots. So its answer is right exactly when no
  pack that a slot asks for is listed again before every slot has its pack
  (`CatalogNames.NamesRight`, and `CatalogNames.LabelsRight` in terms of blank
  buffers, as the web server passes them). The publishing tool refuses a repeated
  id, but the ids "é" and "u00e9" are kept as one: `CatalogGaps.TwiceStops` is such
  a release, on which the pass reports two names and leaves one buffer blank.
  Different ids that need no numbered escape are enough to rule it out
  (`CatalogGaps.DistinctIdsSuffice`). An entry
  that cannot be installed, or whose name is too long, fails the pass exactly
  when it is listed before that point (`CatalogNames.NamesFilled`).
- `catalog_index.h` says that an unusable document fills no names. The count is
  then 0, but names go into the buffers as entries close, before the schema is
  known or a later entry is found to be broken: `CatalogNames.NamesFilled` says
  what each buffer holds, usable document or not, and
  `CatalogGaps.SchemaTwoWrites` is a document of schema 2 in the tool's layout that
  leaves a name behind.
- The publishing tool writes every character outside printable ASCII, other than
  five control characters, as a numbered escape, and the scanner keeps such an
  escape as the five bytes that follow the backslash. A string comes back as it
  was exactly when it needs none (`CatalogPrinter.StringRoundTrip`). An id that
  needs one finds nothing in any release; any other id finds its pack, provided
  that no earlier pack is kept under the same id and that none up to it is one the
  device cannot install (`CatalogPrinter.FoundById`). In the release with "é" and
  "u00e9" the first finds nothing and the second finds the other's pack
  (`CatalogGaps.WrongPackFound`).
- BEGIN closes the pack it is about to replace, but asking for library 0 opens
  an installed copy of the built-in library again. If that copy is what is being
  replaced, COMMIT leaves the device serving the old bytes under the new name,
  or a file that has moved to the backup name if the rollback fails, provided the
  file system lets a file be renamed while it is open. Where it refuses, as a
  comment in `pack_store.c` says of FAT, the upload fails instead and the old
  pack stays. `BleUpload.ReplaceReopened` is that sequence for any two packs,
  with either behaviour of the rename, and `BleUpload.Ble.CommitUpload` says
  exactly when it happens. `BleUpload.Ble.Run` shows that it does not happen in any
  run whose events open no pack between its BEGIN and the next COMMIT, ABORT or
  disconnect (`BleUpload.NoneReopened`, read off the events).

## Model

| member | source | states |
|---|---|---|
| Gf256.GfMul | firmware/main/qr_code.c:42-50 | the shift-and-reduce loop computes the product modulo x^8 + x^4 + x^3 + x^2 + 1 |
| Gf256.MulComm | firmware/main/qr_code.c:42-50 | that product is commutative |
| Gf256.MulAssoc | firmware/main/qr_code.c:42-50 | and associative |
| Gf256.MulAddRight | firmware/main/qr_code.c:42-50 | and distributes over exclusive or |
| Gf256.MulOne | firmware/main/qr_code.c:42-50 | and has 1 as unit |
| Gf256.NoZeroDivisors | firmware/main/qr_code.c:42-50 | and a product of nonzero bytes is nonzero |
| QrCodewords.DoublingReduces | firmware/main/qr_code.c:40-50 | doubling is a shift, reduced by 0x1D when a bit falls out |
| ReedSolomon.RsGenerator | firmware/main/qr_code.c:54-66 | in place, for every degree from 1 to 255, the tail of the product of (x + 2^i) for i below the degree |
| RsCode.GeneratorValue | firmware/main/qr_code.c:54-66 | the generator is monic and its value at x is the product of the x + 2^i |
| RsCode.GeneratorIsCodeword | firmware/main/qr_code.c:54-66 | the generator vanishes at every 2^i below its degree |
| ReedSolomon.RsRemainder | firmware/main/qr_code.c:68-78 | in place, the remainder of dividing the data by the generator, touching only its own bytes |
| RsCode.RemainderMakesCodeword | firmware/main/qr_code.c:68-78 | data followed by its check bytes evaluates to zero at every 2^i, for every degree and length |
| RsCode.RemainderUnique | firmware/main/qr_code.c:68-78 | no other check bytes do, for blocks of at most 255 bytes |
| RsCode.CodeDistance | firmware/main/qr_code.c:68-78 | two different codewords of a block differ in more than degree bytes |
| RsCode.NearestCodeword | firmware/main/qr_code.c:68-78 | damage to at most half of the check bytes' number leaves the codeword determined |
| QrBits.PutBits | firmware/main/qr_code.c:80-87 | the bits are appended most significant first and no other bit changes |
| QrBits.BuildData | firmware/main/qr_code.c:90-109 | mode, count, text, terminator and alternating pad bytes fill exactly the data codewords |
| QrBits.ParseBuilt | firmware/main/qr_code.c:90-109 | a parser of such data gets the text back |
| QrCodewords.VersionTable | firmware/main/qr_code.c:23-27 | sizes, blocks, and codewords of a block as the standard tabulates them |
| QrCodewords.CapacityIsExact | firmware/main/qr_code.c:28 | a version's capacity is the greatest length whose mode, count, bytes and terminator fit its data codewords |
| QrCodewords.BitsSpell | firmware/main/qr_code.c:80-87 | the bits of a sequence, most significant first, spell its bytes |
| QrCodewords.DataSpelled | firmware/main/qr_code.c:90-109 | the data codewords are 04, the length, the text and 00 shifted by half a byte, and then 236 and 17 in turn |
| QrCodewords.OrderSpelled | firmware/main/qr_code.c:370-377 | data before check codewords, the two blocks of version 6 alternating in both |
| QrGrid.SetCell | firmware/main/qr_code.c:111-115 | one function module is set if it is on the grid, and nothing else |
| QrGrid.DrawFinders | firmware/main/qr_code.c:119-129 | exactly the modules of the three finder patterns with their separators are drawn; QrPicture.PatternsDrawn shows them |
| QrGrid.FormatIsBch | firmware/main/qr_code.c:145-161 | the loop computes the standard's format word of the mask |
| QrGrid.FormatIsCodeword | firmware/main/qr_code.c:145-161 | without the fixed mask that word is a multiple of x^10 + x^8 + x^5 + x^4 + x^2 + x + 1 with the level and the mask in front |
| QrGrid.FormatsApart | firmware/main/qr_code.c:145-161 | the words of two masks differ in at least seven bits |
| QrGrid.FormatCorrects | firmware/main/qr_code.c:145-161 | so any three wrong format bits leave the mask determined |
| QrGrid.DrawFormat | firmware/main/qr_code.c:145-161 | both copies of the format word and the dark module, and no other cell |
| QrGrid.DrawFunctionPatterns | firmware/main/qr_code.c:163-185 | exactly the function modules of the version are marked and given their value |
| QrPicture.PatternsDrawn | firmware/main/qr_code.c:119-141 | every matrix of a message shows the drawn 8 by 8 finder corner in three corners, turned inwards, and from version 2 on the drawn alignment pattern |
| QrPicture.TimingDrawn | firmware/main/qr_code.c:163-168 | and column and row 6 alternate between the finder patterns, beginning dark |
| QrPicture.FormatDrawn | firmware/main/qr_code.c:143-161 | and the tabulated format word of its mask in both listed places, with the dark module |
| QrPlacement.ZigzagIsInjective | firmware/main/qr_code.c:188-205 | every loop position has its own cell, in the grid and outside column 6 |
| QrPlacement.ZigzagIsOnto | firmware/main/qr_code.c:188-205 | every cell outside column 6 is visited, for every odd size from 7 |
| QrPlacement.OrderIsExact | firmware/main/qr_code.c:188-205 | the free cells met are all the free cells outside column 6, once each |
| QrPlacement.PlaceCodewords | firmware/main/qr_code.c:188-205 | bit k lies in the k-th free cell, and no other module has changed |
| QrPlacement.RoomForCodewords | firmware/main/qr_code.c:188-205 | every version has room for all its codeword bits, with 0 or 7 cells left |
| QrPicture.DataCellsRead | firmware/main/qr_code.c:187-205 | the codeword bits follow the zigzag, strip by strip from the right, upwards first and turning at each edge, through exactly the modules outside the patterns |
| QrMask.MaskTwice | firmware/main/qr_code.c:223-231 | applying a mask twice restores every cell |
| QrMask.ApplyMask | firmware/main/qr_code.c:223-231 | the masked data modules are inverted and function modules stay |
| QrPicture.MaskDrawn | firmware/main/qr_code.c:207-220 | each mask is one drawn tile repeated in both directions |
| QrPenalty.RunsAreMaximal | firmware/main/qr_code.c:264-302 | the runs the score speaks of are maximal and spell the line |
| QrPenalty.RunsAreUnique | firmware/main/qr_code.c:264-302 | and a line has only one such list |
| QrPenalty.CountIsFinderAt | firmware/main/qr_code.c:242-247 | the history counts the finder-like windows that end at its run |
| QrPenalty.TerminateAndCount | firmware/main/qr_code.c:249-258 | in place, the last run and the light border are pushed on the history and the finder-like windows that end there are counted |
| QrPenalty.ScanEnd | firmware/main/qr_code.c:249-258 | with the end of a line taken as a light run of the symbol's size, the score is the line's |
| QrPenalty.ScanLine | firmware/main/qr_code.c:264-302 | one pass computes the score of the line's maximal runs and finder-like windows |
| QrPenalty.ScoreBlocks | firmware/main/qr_code.c:304-313 | three points for every 2 by 2 block of one colour |
| QrPenalty.BalanceMeaning | firmware/main/qr_code.c:315-320 | the balance term is the band of five percent, and -1 just for an exact balance |
| QrPenalty.PenaltyScore | firmware/main/qr_code.c:260-322 | the method computes the declared penalty |
| QrPenalty.PenaltyNonnegative | firmware/main/qr_code.c:315-339 | for odd sizes the penalty is never negative, so -1 is a sound sentinel |
| QrScores.FiveRuns | firmware/main/qr_code.c:234-258 | a line of five runs scores its long runs, and 80 exactly if it has a finder pattern's proportions |
| QrScores.SevenRuns | firmware/main/qr_code.c:234-258 | behind one more pair of runs the pattern scores 40 for each side whose light run is long enough |
| QrScores.StripesScore | firmware/main/qr_code.c:260-322 | the penalty of any symbol whose rows, or whose columns, are all alike |
| QrScores.OneColourScore | firmware/main/qr_code.c:260-322 | a symbol of one colour scores 2n(n-2) + 3(n-1)^2 + 90 |
| QrMask.Trial | firmware/main/qr_code.c:324-339 | one round scores the symbol that mask would emit and leaves every data module as it found it |
| QrMask.ChooseMask | firmware/main/qr_code.c:324-339 | the choice has the least penalty, the lowest mask on ties, and data modules are unchanged |
| QrEncode.PickVersion | firmware/main/qr_code.c:346-353 | the smallest version that holds the text, or none |
| QrEncode.Interleave | firmware/main/qr_code.c:370-377 | codeword i of block b goes to its interleaved place |
| QrEncode.MakeCodewords | firmware/main/qr_code.c:355-377 | the codewords are a message of the text: data in order, each block followed by its check bytes |
| QrSymbol.MessageUnique | firmware/main/qr_code.c:355-377 | a text has one codeword sequence in a version |
| QrSymbol.SymbolUnique | firmware/main/qr_code.c:379-386 | and one matrix for a mask |
| QrEncode.BestIsLeast | firmware/main/qr_code.c:383-386 | the emitted symbol has the least penalty of all eight symbols of the text |
| QrReader.MatrixFormat | firmware/main/qr_code.c:145-161 | the format modules show the mask used and no other |
| QrReader.MatrixBits | firmware/main/qr_code.c:188-231 | unmasking and reading in zigzag order gives the codewords back |
| QrReader.ReadBack | firmware/main/qr_code.c:341-388 | a reader that follows the standard returns the text, for every text, version and mask |
| QrDamage.TextDetermined | firmware/main/qr_code.c:341-388 | no matrix is within the correction limits (three format bits, half of each block's check bytes) of symbols of two texts or two masks |
| QrDamage.DamagedReadBack | firmware/main/qr_code.c:341-388 | so a correcting reader gets the text back from any damage within these limits |
| QrDamage.WrongModules | firmware/main/qr_code.c:341-388 | counted in modules: as many wrong modules as half of a block's check bytes, at most three of them in the format word, leave the text determined |
| QrDamage.ThreeWrongModules | firmware/main/qr_code.c:341-388 | any three modules of any symbol may be wrong |
| QrEncode.QrEncode | firmware/main/qr_code.c:341-388 | for every C string: nothing if no version holds it, otherwise its symbol, readable, with the drawn patterns and the format word of its mask, and of least penalty |
| TitleNormalize.Normalize | firmware/main/title_lookup.c:12-32 | the two-pointer form computes the words of the title in lower case, joined by one space |
| TitleNormalize.NormalizeTitle | tools/archive_format.py:49-71 | the host form computes the same, on every byte string |
| TitleNormalize.NormalIdempotent | tools/archive_format.py:49-71 | normalizing twice is normalizing once |
| TitleNormalize.NormalNoLonger | firmware/main/title_lookup.c:12-32 | the result never outgrows the input, so the caller's buffer suffices |
| TitleLetters.NormalSplit | tools/archive_format.py:49-75 | white space anywhere in a title separates: the normal forms of the two sides joined by one space, or alone if the other has nothing |
| TitleLetters.NormalWord | tools/archive_format.py:49-75 | without white space only capitals change |
| TitleLetters.LowerLetters | tools/archive_format.py:70-72 | a capital becomes the small letter of its place in the alphabet, and no other byte changes |
| TitleLetters.NormalIsTidy | tools/archive_format.py:49-75 | a normal form has no capitals, and white space only as single spaces between other bytes |
| TitleLetters.TidyIsNormal | tools/archive_format.py:49-75 | and every such string is its own normal form |
| TitleLetters.LessMeans | firmware/main/title_lookup.c:46-54 | the order of titles is by the first byte that differs, or a proper prefix first |
| TitleLookup.TitleCmpOrders | firmware/main/title_lookup.c:46-54 | the comparison is the lexicographic order the host sorts by |
| TitleLookup.LowerBound | firmware/main/title_lookup.c:76-93 | on a sorted index the search ends at the first title not below the needle; it fails exactly when it meets a title of more than 256 bytes |
| TitleLookup.Exact | firmware/main/title_lookup.c:97-113 | an id is found exactly when the title is present and no title of more than 256 bytes is met on the way, and it is that title's |
| TitleLookup.BlockEnd | firmware/main/title_lookup.c:115-133 | titles with a prefix form one block, so the first miss after the lower bound ends it |
| TitleLookup.Prefix | firmware/main/title_lookup.c:115-133 | the first titles with the prefix, in index order, up to the limit; it fails exactly when a title of more than 256 bytes is met |
| TitleLookup.WordStartMatch | firmware/main/title_lookup.c:146-155 | whether the needle starts a later word |
| TitleLetters.WordBytes | firmware/main/title_lookup.c:140-144 | the bytes of a word are the listed letters, digits, the apostrophe and those from 128 up |
| TitleLetters.LaterWord | firmware/main/title_lookup.c:146-155 | a later word starts with the needle exactly when the title splits into something, a byte that is none of a word's, the needle and a rest, and does not begin with it |
| TitleLookup.Window.Cover | firmware/main/title_lookup.c:186-198 | the window always holds the index bytes at its offset, and covers the title asked for |
| TitleLookup.WordStartSearch | firmware/main/title_lookup.c:160-206 | batches and window are invisible: the result is the first ids of the plain filter, for any layout of the string table; it fails exactly when a title of more than 255 bytes comes before the last hit, and then has the hits so far |
| ArchiveSearch.WordStartMatchHost | tools/archive_format.py:78-92 | the host's matcher agrees with the firmware's |
| ArchiveSearch.FindExact | tools/archive_format.py:342-353 | found exactly when the normalized title is present |
| ArchiveSearch.FindPrefix | tools/archive_format.py:355-371 | the first titles with the prefix |
| ArchiveSearch.FindWordStart | tools/archive_format.py:373-386 | the first titles in which the needle starts a later word |
| ArchiveSearch.ExactIsFirst | tools/archive_format.py:388-404 | an exact match is the first prefix match |
| ArchiveSearch.MatchesDistinct | tools/archive_format.py:388-404 | no title is both kinds of match or listed twice |
| ArchiveSearch.Search | tools/archive_format.py:388-404 | for every limit from 1: the first prefix matches followed by the first word matches |
| Crc32.ExtendConcat | firmware/main/content_archive.c:144-159 | a CRC extended over chunks is the CRC of the whole |
| ArchiveDamage.CheckValue | tools/archive_format.py:151 | the CRC of "123456789" is CBF43926 |
| ArchiveDamage.CrcNotices | tools/archive_format.py:179 | changing any one byte changes the CRC |
| ArchiveFormat.EntryRoundTrip | tools/archive_format.py:118-154 | an encoded index entry decodes to itself |
| ArchiveReader.ReadInto | firmware/main/content_archive.c:56-63 | a read succeeds exactly when it stays inside its source, and then gives those bytes |
| ArchiveReader.ValidateContent | firmware/main/content_archive.c:85-141 | accepts exactly the content files that meet the stated header conditions |
| ArchiveReader.IndexBodyCrc | firmware/main/content_archive.c:144-159 | the 512-byte loop computes the one-shot CRC |
| ArchiveReader.ValidateIndex | firmware/main/content_archive.c:163-241 | accepts exactly the index files whose header, CRC and every entry are sound |
| ArchiveReader.PayloadCrc | firmware/main/content_archive.c:333-351 | the 1024-byte loop computes the one-shot CRC |
| ArchiveReader.ProbePackFile | firmware/main/content_archive.c:302-382 | accepts exactly the pack files of less than 2^31 bytes whose wrapper, content and index are sound |
| ArchiveDamage.PackSound | firmware/main/content_archive.c:302-382 | what is accepted: the letters PWKP, version 3, lengths that fill the file, the CRC of what is behind the header, and two sound parts |
| ArchiveDamage.ContentSound | firmware/main/content_archive.c:85-141 | the content part's letters, numbers and bounds |
| ArchiveDamage.IndexSound | firmware/main/content_archive.c:163-241 | the index part's letters, numbers, CRC and entries |
| ArchiveDamage.OneByteChanged | firmware/main/content_archive.c:302-350 | changing one byte of an accepted pack makes it refused, unless that byte is one of the header's reserved ones |
| ArchiveDamage.IndexByteChanged | firmware/main/content_archive.c:163-241 | changing one byte behind the header of an accepted index makes it refused |
| ArchiveReader.OpenPackAccepted | firmware/main/content_archive.c:412-472 | a probed pack opens as an accepted archive |
| ArchiveReader.ArticleInBounds | firmware/main/content_archive.c:498-521 | every id below the count has an entry whose payload and titles lie inside their files |
| ArchiveReader.PayloadReadInside | firmware/main/content_archive.c:523-532 | a payload read succeeds exactly within the payload, with no 32-bit wrap |
| ArchiveReader.IndexReadInside | firmware/main/content_archive.c:534-541 | an index read succeeds exactly within the index |
| ArchiveReader.DictionaryAtTail | firmware/main/content_archive.c:85-141 | the dictionary is bounded, ends the payload and is readable |
| ArchiveReader.TitlesReadable | firmware/main/content_archive.c:163-241 | every accepted archive is one that title lookup can read, and its titles are the bytes its entries name |
| ArchiveGaps.TwoTitles | firmware/main/content_archive.c:163-241 | any two titles, in any order and of any length, are those of an accepted archive |
| ArchiveGaps.UnsortedAccepted | firmware/main/content_archive.c:163-241 | an archive with titles out of order that the firmware accepts and the host refuses |
| ArchiveGaps.LongTitleStopsScan | firmware/main/title_lookup.c:160-206 | an accepted archive with a title of 256 bytes: the exact search works and the word search fails |
| ArchiveGaps.LongerTitleHides | firmware/main/title_lookup.c:57-113 | an accepted archive with a title of 257 bytes, in which a title that is there is not found |
| ArchiveHost.AddString | tools/archive_format.py:130-137 | sharing a string keeps every known string in its place |
| ArchiveHost.PackIndex | tools/archive_format.py:118-154 | the written index holds every entry and its two titles, though equal strings are shared |
| ArchiveHost.ParseArchive | tools/archive_format.py:220-312 | accepts exactly the sound archives and returns their entries |
| ArchiveHost.HostVersusFirmware | firmware/main/content_archive.c:163-241 | both directions of how the host's and the firmware's index checks differ |
| PackBuilder.HasDuplicate | tools/pack_content.py:281-288 | finds a duplicate title exactly when there is one |
| PackBuilder.SortSorts | tools/pack_content.py:290-293 | sorting orders the articles strictly and keeps them all |
| PackBuilder.PayloadTiles | tools/pack_content.py:336-344 | each article lies where its entry says, right after its predecessor |
| PackBuilder.WrittenIndexParses | tools/pack_content.py:274-351 | parsing a written index gives the entries back and the firmware accepts it, whatever the order and length of its titles |
| PackBuilder.Build | tools/pack_content.py:274-351 | for every duplicate-free article set within the format's limits, both files are accepted by both sides and hold the articles, the dictionary at the tail |
| PackBuilder.PackRoundTrip | tools/archive_format.py:158-203 | unwrapping a wrapped pack gives both files back exactly when each has room for a header, and the firmware's probe judges them as its validators do |
| PackBuilder.BuiltPackAccepted | tools/pack_content.py:274-351 | a built archive, wrapped, passes the firmware's probe with the right article count |
| ArchiveServed.BuiltServes | firmware/main/content_archive.c:412-532 | the opened pack has the articles' titles in order, and for each one its sizes, CRC and compressed bytes, and the dictionary |
| ArchiveServed.ServeBuilt | firmware/main/web_server.c:884-893 | looking a title up in a built pack and reading its payload gives that article's bytes, or nothing exactly when no article has the title |
| CatalogIndex.FeedConcat | firmware/main/catalog_index.c:186-281 | feeding a text in two parts is feeding it whole |
| CatalogIndex.Scanner.ClosePack | firmware/main/catalog_index.c:119-151 | in place, the close of a pack as a function of the document |
| CatalogIndex.Scanner.FeedChar | firmware/main/catalog_index.c:186-281 | in place, one step of the scanner |
| CatalogIndex.Scanner.Run | firmware/main/catalog_index.c:287-302 | the outcome depends only on the characters delivered, not on how the reads cut them; CatalogCut says what it is for a text that stops early |
| CatalogCut.UsableIsClosed | firmware/main/catalog_index.c:299-301 | whatever text a pass accepts, every bracket in it is closed and no string is open |
| CatalogCut.CutRefused | firmware/main/catalog_index.c:299-301 | a catalogue cut off anywhere before its last brace is refused in every pass, and cut off behind it is judged as the whole |
| CatalogCut.CutFindsNothing | firmware/main/catalog_index.c:317-329 | and a lookup finds nothing in it |
| CatalogCut.OpenPackRefused | firmware/main/catalog_index.c:299-301 | a pack without its closing brace is refused, even if other brackets bring the depth back to 0 |
| CatalogIndex.FindPack | firmware/main/catalog_index.c:317-329 | the answer for a stream is the answer for its text, none on a read error |
| CatalogIndex.ReadHeader | firmware/main/catalog_index.c:304-315 | usable or not, and the version and stamp read so far |
| CatalogIndex.FillNames | firmware/main/catalog_index.c:331-341 | the count of a usable document, 0 otherwise, and the buffers as the pass left them in either case |
| CatalogText.FieldsLand | firmware/main/catalog_index.c:59-114 | strings with escapes and integers, in any layout, reach the field of their key; a value too long or too big fails the document at the delimiter that ends it |
| CatalogText.TextMeans | firmware/main/catalog_index.c:186-302 | on every text of a catalogue the scanner ends exactly in the fold of its members, or where that fold fails; other members are passed over however nested |
| CatalogFind.FieldsDescribe | firmware/main/catalog_index.c:74-114 | a pack's entry is the last value of each field; it fails exactly when one does not fit |
| CatalogValues.RecordNeeds | firmware/main/catalog_index.c:116-134 | an entry has an id, an address and a checksum that are not empty and a length that is not negative, given by fields of the pack, and strings that fit their buffers |
| CatalogValues.Int32Wraps | firmware/main/catalog_index.c:101-113 | a version or count is kept modulo 2^32 |
| CatalogFind.FindsFirst | firmware/main/catalog_index.c:317-329 | find returns the first pack whose id or url matches, provided the schema is 1 and no unusable pack precedes it |
| CatalogFind.SearchMeaning | firmware/main/catalog_index.c:119-139 | what it means to be the first match |
| CatalogIndex.ValidateText | firmware/main/catalog_index.c:343-350 | the answer for a stream is the answer for its text, and no read may fail |
| CatalogFind.ValidatesAll | firmware/main/catalog_index.c:343-350 | validate accepts exactly the schema 1 catalogues with at least one pack, all usable |
| CatalogFind.HeaderIgnoresPacks | firmware/main/catalog_index.c:304-315 | the header pass does not depend on the packs, so a broken one cannot fail it; the version is the last that fits 64 bits, as an int, and the stamp the last shorter than 32 bytes |
| CatalogNames.FillSlotsMeans | firmware/main/catalog_index.c:141-150 | the loop over the slots names exactly the slots of the pack up to the first whose buffer is too small, counts them, and fails if there is one |
| CatalogNames.NamesFilled | firmware/main/catalog_index.c:331-341 | on every text of a catalogue: usable exactly when the schema is 1 and no entry that is looked at is broken or has a name too long; the count is that of the slots asking for the entries looked at; each slot holds the name put there last, usable or not |
| CatalogNames.NamesRight | firmware/main/catalog_index.c:141-150 | on a usable document the count is right and every slot that asks for a listed pack is given one exactly when no such pack is listed again before every slot has its pack; then each slot holds its pack's name, and the others are untouched |
| CatalogNames.LabelsRight | firmware/main/catalog_index.h:54-60 | the same read off blank buffers |
| CatalogGaps.TwiceStops | firmware/main/catalog_index.c:141-150 | a release with two ids kept as one: usable, two names reported, and a buffer left blank whose pack is in the document |
| CatalogGaps.DistinctIdsSuffice | tools/build_pack_catalog.py:43-46 | different ids that need no numbered escape satisfy that condition for any slots |
| CatalogGaps.WrongPackFound | tools/build_pack_catalog.py:43-46 | in that release one id finds nothing and another finds the wrong pack |
| CatalogGaps.SchemaTwoWrites | firmware/main/catalog_index.h:75-78 | a document of schema 2: not usable, and a name is in the buffer |
| CatalogGaps.SchemaWraps | firmware/main/catalog_index.c:95-114 | a document of schema 2^32 + 1 is accepted |
| CatalogPrinter.StringRoundTrip | tools/build_pack_catalog.py:105-107 | a printed string reads back as itself exactly when no character needs a numbered escape, and longer otherwise |
| CatalogPrinter.DecimalRoundTrip | tools/build_pack_catalog.py:105-107 | so does a printed number |
| CatalogPrinter.RecordOf | tools/build_pack_catalog.py:78-90 | a printed pack's entry is the pack's own data, field for field, or none exactly when the device has no room for a field or one it needs is empty |
| CatalogPrinter.ReadsBack | tools/build_pack_catalog.py:96-107 | on any printed release, find returns the first pack with the id or url, field for field, and nothing exactly when no pack has them or one up to it cannot be installed |
| CatalogPrinter.FoundById | tools/build_pack_catalog.py:105-107 | in every release: an id that needs a numbered escape finds nothing; any other finds its pack, field for field, if no earlier pack is kept under the same id and all up to it can be installed, and only then unless an earlier pack is kept as the same entry |
| CatalogPrinter.ValidatesAs | firmware/main/catalog_index.c:287-302 | for every schema number: a document in the tool's layout is accepted exactly when that is 1 modulo 2^32 within 64 bits and it lists packs that can all be installed |
| CatalogPrinter.PrintedValidates | firmware/main/catalog_index.c:343-350 | the device accepts a printed release exactly when it lists a pack and can install every one |
| CatalogPrinter.HeaderReadsBack | tools/build_pack_catalog.py:96-107 | the version and the stamp of a printed release come back, unless they do not fit |
| FileStore.ScanPut | firmware/main/pack_store.c:143-185 | the working files never show among the installed packs |
| PackListing.ItemShows | firmware/main/pack_store.c:151-178 | a file shows as an item exactly if its name is that of the item, with the listed characters, not reserved, and .pwp, and the item's count and bytes are those of the opened archive and the file |
| PackListing.ScanShows | firmware/main/pack_store.c:143-185 | a scan has one item for each such file, in order, and the sum of their articles |
| PackListing.NamesFold | firmware/main/pack_store.c:317-320 | two names are the same exactly up to the case of the listed letters |
| PackStore.Store.constructor | firmware/main/pack_store.c:21-35 | a new store is valid and serves nothing |
| PackStore.Store.Init | firmware/main/pack_store.c:85-120 | start-up reclaims the staging file, keeps every pack and selects the flash archive |
| PackStore.Store.LoadPack | firmware/main/content_archive.c:412-472 | loads exactly the valid packs under the next generation, modulo 2^32; a failure changes neither archive nor generation |
| PackStore.Store.RevertToFlash | firmware/main/content_archive.c:474-486 | the flash archive or none |
| PackStore.Store.OpenForRead | firmware/main/pack_store.c:274-306 | an installed valid file wins, only the built-in name falls back to flash, and the open archive stays the installed file |
| PackStore.Store.ScanMetadata | firmware/main/pack_store.c:143-185 | the scan counts every pack and every article, keeping as many items as fit; PackListing.ScanShows says what the items are |
| PackStore.Store.MetadataRefresh | firmware/main/pack_store.c:187-195 | a valid cache equals a fresh scan |
| PackStore.Store.List | firmware/main/pack_store.c:206-220 | the answer of an uncached scan |
| PackStore.Store.ListAll | firmware/main/pack_store.c:230-257 | every installed pack, with no ceiling at the cache size |
| PackStore.Store.Count | firmware/main/pack_store.c:222-228 | the number of packs in a fresh scan |
| PackStore.Store.TotalArticles | firmware/main/pack_store.c:259-268 | the sum over every pack and the built-in library, held at 2^32 - 1 |
| PackStore.ScanSums | firmware/main/pack_store.c:143-185 | the scan's total is the sum of its items |
| PackStore.Store.ReleasePackFile | firmware/main/pack_store.c:317-323 | the pack is closed if it is open, whatever the case of its name |
| PackStore.Store.Remove | firmware/main/pack_store.c:352-365 | the pack is gone exactly on success, nothing else is, and the open archive stays installed |
| PackStore.Store.BeginUpload | firmware/main/pack_store.c:366-376 | an empty staging file, with the pack to be replaced closed |
| PackStore.Store.FinishUpload | firmware/main/pack_store.c:378-411 | succeeds exactly when stated; the directories passed through are a chain of single operations, and at each of them the old pack or the validated new one is whole; on failure the old pack is in place, or in the backup exactly when the stated faults make the rollback fail; the staging file is gone unless it cannot be deleted, and the kind of error is the one stated |
| PackStore.Store.Replace | firmware/main/pack_store.c:391-410 | the two renames and the rollback; every operation on the directory enters the recorded trace, and the chain since the call is safe throughout |
| PackStore.Store.AbortUpload | firmware/main/pack_store.c:413-417 | only the staging file changes |
| PackStore.FinishFrame | firmware/main/pack_store.c:378-411 | replacing one pack leaves every other in place |
| BleUpload.BeginRoundTrip | firmware/main/ble_provisioning.c:219-231 | an announcement written by a client is read back |
| BleUpload.BeginLayout | firmware/main/ble_provisioning.c:219-231 | where the code, the length, the CRC and the name stand in it |
| BleUpload.BeginParsed | firmware/main/ble_provisioning.c:219-231 | whatever is read as an announcement has a positive length, a safe name and exactly the bytes it says |
| BleUpload.ItemLayout | firmware/main/ble_provisioning.c:190-217 | where the index, the articles, the bytes and the name stand in the answer about a pack |
| BleUpload.DeleteLayout | firmware/main/ble_provisioning.c:281-291 | a DELETE message is its code, a length and the name |
| BleUpload.Ble.constructor | firmware/main/ble_provisioning.c:66-80 | no upload is open at the start |
| BleUpload.Ble.BeginUpload | firmware/main/ble_provisioning.c:219-251 | opens exactly the well-formed uploads that fit; a second BEGIN changes only the answer |
| BleUpload.Ble.DataAccess | firmware/main/ble_provisioning.c:329-354 | a chunk is taken exactly at the right offset and within the length; the staging file, the count and the CRC follow; a refused write changes nothing |
| BleUpload.Ble.CommitUpload | firmware/main/ble_provisioning.c:253-279 | success exactly for complete valid uploads, installing bytes of the announced length and CRC; otherwise the old pack is kept; the open archive goes stale exactly under a condition on the state before |
| BleUpload.Ble.AbortUpload | firmware/main/ble_provisioning.c:115-120 | the upload is forgotten and only the staging file changes |
| BleUpload.Ble.DeletePack | firmware/main/ble_provisioning.c:281-291 | deletes exactly the named pack, and an open upload goes on |
| BleUpload.Ble.RespondInfo | firmware/main/ble_provisioning.c:178-188 | the answer's fields, with the number of libraries modulo 2^16 |
| BleUpload.Ble.RespondPackAt | firmware/main/ble_provisioning.c:190-217 | indices from 1 enumerate an uncached scan; index 0 opens the built-in library |
| BleUpload.Ble.ControlAccess | firmware/main/ble_provisioning.c:293-327 | under the lock each command does what is stated of it: BEGIN opens exactly the uploads that fit, COMMIT installs exactly the complete valid ones, ABORT gives the upload up, DELETE removes exactly the named pack, INFO and PACK_AT answer their fields; nothing changes without the lock |
| BleUpload.Ble.Step | firmware/main/ble_provisioning.c:293-405 | every event does what is stated of its message and keeps the invariant; which events start and end an upload and open its pack again; the staging file grows by exactly the data messages that fit |
| BleUpload.Ble.Run | firmware/main/ble_provisioning.c:293-405 | over any run: packs stay validated; the served file is the installed one, if the events open no pack while it is being uploaded; the staging file is what the data messages since BEGIN amount to; equal generations fewer than 2^32 events apart mean the same archive |
| BleUpload.SendPack | firmware/main/ble_provisioning.c:219-354 | a client that writes BEGIN, a pack in order in pieces of any size, and COMMIT, each a message of its own, gets exactly it installed, and nothing installed if it is not valid; what is served afterwards is the installed file |
| BleUpload.SendAndList | firmware/main/pack_store.c:230-257 | and the list then has an item with its name, article count and length |
| BleUpload.ReplaceReopened | firmware/main/ble_provisioning.c:190-279 | reopening the built-in library during its own upload leaves the old bytes served, unless they are the new ones, if an open file can be renamed; if not, the upload fails and the old pack stays |

## Left out

- CatalogFind.FindsFirst: keys of 96 bytes or more, objects or arrays inside a pack, and numbers with a fraction or an exponent are outside its catalogues, because the scanner is not a general JSON parser.
- CatalogPrinter.ReadsBack: strings hold no surrogate code point on its own, and the list of collections is any one nested container.
- QrBits.PutBits: the value is a byte; the source passes a wider integer but never more than eight bits of it.
- QrEncode.QrEncode: the matrix buffer is required to be as large as the largest symbol, as the header asks of its callers.
- PackBuilder.Build: compression, dictionary training and text cleaning are given with the articles; sizes are bounded as the format's fields are.
- PackStore.Store.ScanMetadata: a file that becomes unreadable in the middle of a scan is not modelled, nor more than 2^31 packs.
- PackStore.Store.FinishUpload: power loss between steps is covered by the statement about intermediate points; nothing restores the backup afterwards.
- BleUpload.SendPack: the outside world behaves the same during all messages of one upload.
- The HTTP upload path that shares the staging file with Bluetooth uploads.
- The hide switch of the built-in library and free-space figures, which are given with each event.
- Error codes are merged where no caller tells them apart.
- Wi-Fi, display, button and web page code; DEFLATE, SHA-256 and wear levelling; the HTML and Markdown clean-up of the host tools.
- Inspection helpers of the archive tool and the reading of display titles.
- Thread interleaving inside a locked region: every event is one step.
