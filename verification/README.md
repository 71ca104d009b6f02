# Proofs about the vendored C modules

The repository carries several algorithmic C modules. This project models the ones below in Dafny and
proves what they are for. `dafny verify dfyconfig.toml` checks everything.

| files | what they model |
|---|---|
| `Lz77`, `HashChains`, `Matching`, `Deflate` | Info-ZIP's LZ77 matcher: sliding window, hash chains, match finder, greedy and lazy loops (obj_zip/zip30/deflate.c) |
| `Policy`, `PolicyFacts`, `PolicyEdge` | which tokens it chooses, said of the file alone, and what follows from that |
| `JsonNumbers`, `JsonGrammar` | the texts of RFC 8259 and what they mean, said without a parser |
| `JsonText`, `Utf8`, `JsonParse`, `JsonSlices` | cJSON's text as functions: rendering and parsing (json_parse/jsonlibC/cJSON.c) |
| `JsonLiterals`, `JsonReading`, `JsonRoundTrip`, `JsonExamples` | what the parser makes of every text of the grammar, that what is printed is one of them, and the round trip |
| `JsonPrinter`, `JsonParser`, `JsonThereAndBack` | the growing print buffer and the in-place parser, which compute those functions, and the two in a row |
| `JsonCompare`, `JsonDuplicate` | comparison of trees, and the copy of a linked tree |
| `Calendar`, `Timezone` | calendar arithmetic, both date conversions and the daylight-saving table (obj_zip/zip30/timezone.c) |
| `Sha1`, `Sha1Answer`, `WebSocket`, `WebSocketBits` | SHA-1 and WebSocket framing over arbitrary pieces, with their published examples (mongoose_boj/mongoose/mongoose.c) |
| `Crc`, `Crypt`, `Keystream` | the CRC-32 with its tables and the stream cipher, with known answers (obj_zip/zip30/crc32.c, crypt.c) |
| `SplitWriter`, `Ucs4` | the split-archive writer and the 31-bit UTF-8 conversions (obj_zip/zip30/fileio.c) |
| `LinkedList` | the circular list (dstruct/linkedlist/linkedlist.c) |
| `Options`, `Division` | a value that may be missing; quotient and remainder |

## How the source is rendered

Code that changes things in place is a class or a method over arrays, with the C variables as fields;
what it computes is stated by functions, and the laws are proved about those. Ghost fields say what the
variables stand for (how many input bytes have left the window, which string last used a slot, which
bytes a context has absorbed). Long C functions are cut into methods at their branches and loops.

Deflate. WSIZE is a symbolic power of two from 512 to 0x8000, MIN_MATCH is 3 and MAX_MATCH 258, keys
have 15 bits and shift by 5, and `& WMASK` is the remainder by WSIZE. The read routine delivers any
non-empty piece that fits; ct_tally appends a token and returns any flush decision. The comparisons with
match_start and hash_head are those of 32-bit unsigned numbers, so a match_start that has wrapped below
zero keeps its distance. The two bytes that longest_match keeps in registers are read from the window
again, and match_start is stored once at the end of the search. When fewer than MIN_MATCH bytes are left
the stale hash_head is still searched, as in the source; the contracts say why it does no harm. `Policy`
keeps no window: a run is a position, the set of positions whose strings have been inserted, and the tokens
so far. Deflate is proved to make those choices turn by turn.

JSON. Trees are values in the text functions and linked nodes in `JsonDuplicate`. A number is its
lexeme, printed ones of at most 25 characters. Numbers in the grammar may begin with zeros, as strtod allows.
Memory may run out in the printer. An object is compared as a map.

Calendar. Integers are unbounded except where mkgmtime computes in unsigned int; division truncates as
in C. The instant that out-of-range fields denote is defined by counting days year by year.

WebSocket. A connection hands its handlers a list of events. Reads take any number of bytes the room
allows; a full receive buffer is an error, as in the source. Bytes are integers, so shifts are division.

SHA-1. The compression is the standard's; the unrolled round macros are rounds of one loop in which the
renaming of the registers is an index modulo five. CRC registers and cipher keys are 32-bit vectors; the
product in decrypt_byte, of two numbers of sixteen bits, is taken in whole numbers.

Lists. Each call is atomic under its lock, and the node count that insert_lknode tests before it takes
the lock is a parameter, of any age.

## What turned out not to hold

- cJSON_Compare is symmetric and transitive, but an object that carries a name twice equals itself, or its
  copy, only when both members denote the same (`JsonCompare.RepeatedName`, `JsonCompare.RepeatedNameDiffers`),
  and one with an unnamed member equals nothing (`JsonCompare.UnnamedDiffers`). On all trees it is equality
  of what coherent trees denote (`JsonCompare.CompareIsEquality`).
- cJSON refuses text that it printed itself when the tree is nested deeper than CJSON_NESTING_LIMIT;
  `JsonRoundTrip.RoundTrip` holds exactly up to there. cJSON_PrintPreallocated needs two bytes more than
  the text, its NUL and one other (`JsonPrinter.PrintPreallocated`).
- A number of more than 63 characters is refused, or cut short where it stands alone and an end is not
  demanded; `JsonReading.FileRead` holds exactly up to there, `JsonExamples.SixtyFourDigits` is one.
- Cutting nice_match to the lookahead is meant to make the tokens independent of how the file is read. They are
  determined by file and level up to WSIZE + MAX_DIST bytes (`PolicyFacts.ChosenOnce`). In a longer file a string
  exactly MAX_DIST back is missed if the window has just moved to begin with it (`Policy.InSight`), and when
  the window moves depends on the reads; `PolicyEdge.EdgeDecides` is such a file.
- A \u escape with something else among its digits is not refused but read as code point 0
  (`JsonLiterals.BadDigits`).
- mkgmtime puts back a wrong weekday for most dates before 1970 and for dates far ahead; `Timezone.WeekdayOf`
  says for which, `Timezone.WeekdayBefore` is one.
- A change of the clocks before the epoch, in 1970 east of Greenwich, does not fit an unsigned time_t
  (`Timezone.TransitionFits`, `Timezone.BeforeTheEpoch`).
- ws_process adds header and payload length in 64 bits; `WebSocket.SumWraps` says when that is not the sum,
  `WebSocket.AllOnes` is a case.
- bfwrite keeps splits within their size exactly when what does not go into the current split is no
  larger than a split (`SplitWriter.AfterFits`, `SplitWriter.OversizedBuffer`).
- The start of the central directory that bfwrite records is the place of its first header exactly when
  that header fitted into the current split (`SplitWriter.CdStartRight`), and the count of entries on a disk
  leaves out one that opened it (`SplitWriter.CountRight`); `SplitWriter.StaleDirectory` shows both.
- The UTF-8 decoder accepts overlong forms, one of zero among them, and 0x7F is encoded in two bytes;
  `Ucs4.ReencodedIff` says which characters the encoder would write back, `Ucs4.LongZero` and
  `Ucs4.DelInTwo` are two that it would not.
- insert_lknode with a count out of date inserts where the wrapped index leads; the position is the one
  asked for exactly when the index fits the nodes that are there (`LinkedList.InsertedWhere`,
  `LinkedList.StaleCount`).
- linkedlist.h says of index -1 that it inserts at the last node: the code inserts behind it.

## Model

| member | source | states |
|---|---|---|
| `Deflate.Matcher.Deflate` | obj_zip/zip30/deflate.c:794-928 | for every file, level, sequence of read sizes and sequence of flush decisions: the blocks handed over tile the file in order, the tokens of each expand to exactly its slice, all tokens decode to the file, only the last block is marked as the end; and the tokens are, from the first to the last, those that the level's policy chooses for the file, greedy for levels 1 to 3 and lazy from 4 on, with that level's numbers; a file of five or more equal bytes becomes two literals and then a match of the byte before, as long as can be |
| `Deflate.Matcher.DeflateFast` | obj_zip/zip30/deflate.c:695-787 | the greedy loop ends with the whole file read, tokenised and handed over, and its tokens are those of the greedy run over the file |
| `Deflate.Matcher.DeflateLazy` | obj_zip/zip30/deflate.c:794-928 | and so does the lazy loop, with those of the lazy run |
| `Deflate.Matcher.FlushBlock` | obj_zip/zip30/deflate.c:578-580 | the slice handed over is the one the tokens since the last flush stand for, or no buffer when its start has slid out of the window |
| `Deflate.Matcher.FastTurn` | obj_zip/zip30/deflate.c:702-777 | one turn of the loop is one step of the greedy run: the same position, strings inserted and tokens |
| `Deflate.Matcher.FastMatch` | obj_zip/zip30/deflate.c:707-730 | the string here is inserted and the search finds what the search of the greedy run finds |
| `Deflate.Matcher.SightIs` | obj_zip/zip30/deflate.c:714-719 | in window indexes the test of a hash head says whether the string is in sight in the file |
| `Deflate.Matcher.LazyTurn` | obj_zip/zip30/deflate.c:808-915 | one turn of the loop is one step of the lazy run: the same position, strings inserted, pending match, byte held back and tokens |
| `Deflate.Matcher.LazyMatch` | obj_zip/zip30/deflate.c:819-855 | what beats the pending match is what the search of the lazy run finds, and a true match; nothing beats it there if nothing does here; with fewer than three bytes left whatever the stale head leads to is too short to matter |
| `Deflate.Matcher.AdvanceFast` | obj_zip/zip30/deflate.c:741-769 | a short match has all its strings inserted and no others are; after a long one, or with fewer than three bytes left, none is and the running key is restarted; chains stay valid and complete either way |
| `Deflate.Matcher.AdvanceLazy` | obj_zip/zip30/deflate.c:858-879 | every string of an adopted match that has three bytes left in the input is inserted, and no other; chains stay valid and complete at the end of the file |
| `Deflate.Matcher.TryMatch` | obj_zip/zip30/deflate.c:716-730 | the length and the start are those that the search over the inserted strings of the file finds with the level's own nice length, which cutting it to the lookahead does not change; longer than prev_length and at least three, it is a match at distance at most MAX_DIST |
| `Deflate.Matcher.LongestMatch` | obj_zip/zip30/deflate.c:416-542 | the length, cut to the end of the file, and if it beats prev_length the start are those that the search over the inserted strings of the same key finds; the length never goes below prev_length, match_start changes only with it, and all accesses lie inside the arrays even for a stale head |
| `Deflate.Matcher.Search` | obj_zip/zip30/deflate.c:449-541 | the loop of the search, turn by turn against the search over the inserted strings of the file |
| `Deflate.Matcher.Compare` | obj_zip/zip30/deflate.c:497-523 | a candidate rejected by its deciding bytes cannot beat the best; otherwise the length found is the true common length, although the third byte is not compared |
| `Deflate.Matcher.ScanFrom` | obj_zip/zip30/deflate.c:510-523 | the comparison that tests the end only every eighth byte stops at the first difference, or at 258 |
| `Deflate.Matcher.SkippedByte` | obj_zip/zip30/deflate.c:502-508 | equal keys and equal first two bytes make the third bytes equal |
| `Deflate.Matcher.NextCandidate` | obj_zip/zip30/deflate.c:538-539 | a link followed within reach leads to the string inserted last before with the same key, strictly earlier and itself linked; even a stale one stays inside the tables |
| `Deflate.Matcher.SearchTurn` | obj_zip/zip30/deflate.c:490-539 | one turn of the search, in the window, is one step of the search over the file |
| `Deflate.Matcher.InsertString` | obj_zip/zip30/deflate.c:289-292 | the chain of the string's own key gets it as its head, its old head, which is the string inserted last before with that key, becomes its link, and all chains stay valid and complete |
| `Deflate.Matcher.FillWindow` | obj_zip/zip30/deflate.c:591-687 | the window holds a contiguous slice of the input at a multiple of WSIZE, no read is made for fewer than two bytes, strstart ends no higher than window_size - MIN_LOOKAHEAD, and there is lookahead enough or the file has ended; positions and the pending distance keep their meaning |
| `Deflate.Matcher.SlideWindow` | obj_zip/zip30/deflate.c:612-640 | moving the upper half down keeps every chain valid and complete, the position of strstart and of the block, and the distance of a pending match even where match_start wraps below zero |
| `Deflate.Matcher.LowerAll` | obj_zip/zip30/deflate.c:629-639 | every table entry is lowered by WSIZE or becomes NIL |
| `Deflate.Matcher.ReadMore` | obj_zip/zip30/deflate.c:665-685 | a read delivers something or sets the end of file |
| `Deflate.Matcher.LmInit` | obj_zip/zip30/deflate.c:303-383 | from any state left by an earlier file: the state in which both loops start, whatever prev still holds |
| `Deflate.Matcher.Configure` | obj_zip/zip30/deflate.c:234-246 | each level's own numbers |
| `Deflate.Matcher.StartKey` | obj_zip/zip30/deflate.c:378-382 | the running key fits the first string |
| `Deflate.Matcher.LazyFinish` | obj_zip/zip30/deflate.c:925-927 | the byte held back at the end is the last token of the lazy run |
| `HashChains.ThirdByte` | obj_zip/zip30/deflate.c:502-508 | two strings with the same key and the same first two bytes have the same third |
| `HashChains.RollIn` | obj_zip/zip30/deflate.c:279-292 | the running key is that of the string it rolls over, whatever came before |
| `HashChains.KeyRestarted` | obj_zip/zip30/deflate.c:764-765 | a key started from two bytes serves as a running key |
| `HashChains.InsertChained` | obj_zip/zip30/deflate.c:289-292 | an insertion keeps every chain valid, for every key and slot |
| `HashChains.SlideChained` | obj_zip/zip30/deflate.c:629-639 | a slide keeps every chain valid and loses no string in reach |
| `HashChains.InsertComplete` | obj_zip/zip30/deflate.c:289-292 | an insertion keeps the tables complete: each head leads to the latest string of its key and each link to the latest before |
| `HashChains.SlideComplete` | obj_zip/zip30/deflate.c:629-639 | a slide keeps them complete as far as the window reaches |
| `HashChains.FollowComplete` | obj_zip/zip30/deflate.c:538-539 | within reach a link leads to the string inserted last before with the same key |
| `HashChains.Latest` | obj_zip/zip30/deflate.c:289-292 | the last of the inserted positions before a given one whose string has the key, or none |
| `HashChains.HashAtIs` | obj_zip/zip30/deflate.c:279-292 | the key is three bytes five bits apart, cut to fifteen bits |
| `HashChains.FollowLink` | obj_zip/zip30/deflate.c:538-539 | a linked position within a window's reach still owns its slot, so its link leads to a strictly earlier string with the same key |
| `HashChains.StaleLink` | obj_zip/zip30/deflate.c:538-539 | a link from a slot out of reach stays behind the current position and leads to a used slot |
| `HashChains.EmptyChains` | obj_zip/zip30/deflate.c:335-339 | clearing head alone is enough to start, whatever prev holds |
| `Matching.CommonIs` | obj_zip/zip30/deflate.c:510-523 | the common length is the one number with equal bytes below it and a difference at it |
| `Policy.AgreeIsCommon` | obj_zip/zip30/deflate.c:510-535 | bytes of the window beyond the lookahead make no difference once the length is cut to it |
| `Policy.BestIs` | obj_zip/zip30/deflate.c:488-541 | the search finds the best of all candidates, or of those up to the first of nice length, and of equals the first |
| `Policy.SoughtRepeats` | obj_zip/zip30/deflate.c:718-726 | what it finds is a true match |
| `PolicyFacts.UniformMatched` | obj_zip/zip30/deflate.c:707-879 | at every level a file of five or more equal bytes becomes two literals and then a match of the byte before with all that is left, or 258 bytes |
| `PolicyFacts.LazyInsertsAll` | obj_zip/zip30/deflate.c:872-888 | the lazy run inserts every string that it passes |
| `PolicyFacts.ChosenOnce` | obj_zip/zip30/deflate.c:720-726 | the tokens are determined by file and level, as the comment promises, for every file not longer than WSIZE + MAX_DIST |
| `PolicyEdge.EdgeDecides` | obj_zip/zip30/deflate.c:424-427 | in a file with a string repeated MAX_DIST after it the token there is a match or a literal, as the window has not or has just moved to begin with that string |
| `PolicyFacts.EdgeIrrelevant` | obj_zip/zip30/deflate.c:424-427 | up to that length no string becomes invisible by becoming the first of the window |
| `Lz77.ExpandConcat` | obj_zip/zip30/deflate.c:574-580 | expansion of concatenated token lists (section 3.2.3 of RFC 1951) |
| `Lz77.CopyBackReplays` | obj_zip/zip30/deflate.c:730-736 | copying from a distance at which the text repeats continues the text, overlap included |
| `Lz77.TiledDecodes` | obj_zip/zip30/deflate.c:574-580 | blocks that tile a text decode, together, to it |
| `JsonRoundTrip.RoundTrip` | json_parse/jsonlibC/cJSON.c:1040-1785 | printing any well-formed tree, formatted or not, and parsing the text gives the tree back exactly when it is nested at most CJSON_NESTING_LIMIT deep; deeper ones are refused (RFC 8259) |
| `JsonThereAndBack.PrintAndParse` | json_parse/jsonlibC/cJSON.c:1040-1205 | the printer over its growing buffer and the in-place parser, one after the other, with or without the demand for an end: the tree comes back exactly when it is nested at most CJSON_NESTING_LIMIT deep; printing fails only for memory or INT_MAX |
| `JsonThereAndBack.ParseOfPrint` | json_parse/jsonlibC/cJSON.c:1121-1200 | cJSON_Parse undoes cJSON_Print up to that depth |
| `JsonReading.FileRead` | json_parse/jsonlibC/cJSON.c:1040-1119 | any text of sections 2 to 7 of RFC 8259, with any blanks, a byte order mark or none: the parser gives the tree it stands for, and stops behind it, exactly if the nesting is at most 1000 and no number has more than 63 characters; otherwise it refuses, except that a number alone is cut short where an end is not demanded |
| `JsonReading.DocRead` | json_parse/jsonlibC/cJSON.c:1258-1316 | a value of the grammar inside any surroundings that do not run on as a number is read to the position right behind it, under the same condition |
| `JsonReading.StrtodWhole` | json_parse/jsonlibC/cJSON.c:283-361 | strtod takes every number of section 6 of RFC 8259 whole: minus or none, digits, a point with digits or none, an exponent with or without sign or none |
| `JsonReading.NumberRead` | json_parse/jsonlibC/cJSON.c:283-361 | such a number is read whole up to 63 characters; of a longer one only a part is |
| `JsonReading.ElementsRead` | json_parse/jsonlibC/cJSON.c:1392-1489 | the elements of an array with any blanks between them, in order, or a refusal |
| `JsonReading.PairsRead` | json_parse/jsonlibC/cJSON.c:1553-1669 | the members of an object, likewise |
| `JsonReading.EmptyRead` | json_parse/jsonlibC/cJSON.c:1392-1415 | an empty array or object, with blanks inside or none |
| `JsonRoundTrip.RenderIs` | json_parse/jsonlibC/cJSON.c:1318-1389 | the printed text, spelled out as a text of the grammar: without any blank, or formatted with a space behind each comma of an array, each member of an object on its own line behind tabs, a tab behind its colon and the closing brace on a line of its own |
| `JsonRoundTrip.DocMeans` | json_parse/jsonlibC/cJSON.c:1318-1389 | that text is in the grammar, stands for the tree printed, and its numbers are short |
| `JsonRoundTrip.ByteIs` | json_parse/jsonlibC/cJSON.c:938-980 | each byte of a string as it is, with its short escape, or as \u00 and two digits in lower case |
| `JsonExamples.ExponentInArray` | json_parse/jsonlibC/cJSON.c:283-361 | [1e5] is an array of one number |
| `JsonExamples.MarkAndBlanks` | json_parse/jsonlibC/cJSON.c:1002-1038 | -0.25 behind a byte order mark, with blanks around it |
| `JsonExamples.EmptyWithBlank` | json_parse/jsonlibC/cJSON.c:1408-1415 | an array with nothing but a blank in it |
| `JsonExamples.BlanksAroundColon` | json_parse/jsonlibC/cJSON.c:1613-1630 | an object with blanks around its colon |
| `JsonExamples.SixtyFourDigits` | json_parse/jsonlibC/cJSON.c:286-306 | a number of sixty-four digits is refused |
| `JsonLiterals.LiteralBack` | json_parse/jsonlibC/cJSON.c:733-862 | any literal that section 7 of RFC 8259 allows, its characters plain, with short escapes or as \u escapes and pairs with digits in either case, is read as the bytes they stand for, a code point as its UTF-8 form (section 3 of RFC 3629) |
| `JsonLiterals.PieceBack` | json_parse/jsonlibC/cJSON.c:784-845 | the bytes gained by one character of a literal, wherever it stands in it |
| `JsonLiterals.CodePointRead` | json_parse/jsonlibC/cJSON.c:606-671 | a code point written as one escape or as a surrogate pair is read as itself, up to the very end of the literal |
| `JsonLiterals.SurrogatesBack` | json_parse/jsonlibC/cJSON.c:632-664 | a surrogate pair becomes the code point it stands for |
| `JsonLiterals.ShortEscapes` | json_parse/jsonlibC/cJSON.c:799-820 | the eight short escapes of section 7 of RFC 8259, and no others |
| `JsonLiterals.HalfPairRefused` | json_parse/jsonlibC/cJSON.c:626-660 | a low surrogate first, or a high one without a low one behind it, is refused |
| `JsonLiterals.BadDigits` | json_parse/jsonlibC/cJSON.c:567-603 | an escape with something else among its digits is not refused: it is read as code point 0 |
| `JsonLiterals.AcuteE` | json_parse/jsonlibC/cJSON.c:733-862 | one escape alone in its literal |
| `JsonText.RenderNulFree` | json_parse/jsonlibC/cJSON.c:865-985 | printed text has no NUL, so strlen finds its end |
| `JsonPrinter.PrintBuffer.Ensure` | json_parse/jsonlibC/cJSON.c:396-481 | on success there is room and the text so far is kept; unless memory runs out it succeeds exactly when a buffer of INT_MAX bytes, or the fixed one, has the room |
| `JsonPrinter.PrintBuffer.UpdateOffset` | json_parse/jsonlibC/cJSON.c:485-494 | the offset moves behind the text just written, which strlen finds |
| `JsonPrinter.PrintBuffer.CountEscapes` | json_parse/jsonlibC/cJSON.c:893-916 | the extra bytes counted beforehand are exactly those that escaping adds |
| `JsonPrinter.PrintBuffer.PrintString` | json_parse/jsonlibC/cJSON.c:865-985 | the rendering of the string and a NUL, inside the space reserved, and success exactly when it fits |
| `JsonPrinter.PrintBuffer.StoreByte` | json_parse/jsonlibC/cJSON.c:938-980 | each byte or its escape |
| `JsonPrinter.PrintBuffer.PrintValue` | json_parse/jsonlibC/cJSON.c:1318-1389 | the buffer shows the pure rendering behind what it showed before; the text does not depend on the sizes; success is decided by memory alone |
| `JsonPrinter.PrintBuffer.PrintArray` | json_parse/jsonlibC/cJSON.c:1491-1551 | the rendering of an array, element by element, with the depth restored |
| `JsonPrinter.PrintBuffer.PrintObject` | json_parse/jsonlibC/cJSON.c:1672-1785 | the rendering of an object, member by member, with the depth restored |
| `JsonPrinter.PrintPreallocated` | json_parse/jsonlibC/cJSON.c:1237-1255 | into a given buffer: exactly the rendered text, and success exactly when the buffer has two bytes more than the text |
| `JsonPrinter.PrintBuffered` | json_parse/jsonlibC/cJSON.c:1207-1234 | from any starting size: exactly the rendered text, or failure for lack of memory |
| `JsonPrinter.Print` | json_parse/jsonlibC/cJSON.c:1128-1195 | exactly the rendered text, or failure for lack of memory |
| `JsonParser.ParseBuffer.ParseString` | json_parse/jsonlibC/cJSON.c:733-862 | the in-place parser computes the parsing function; the space estimated beforehand always covers what is written |
| `JsonParser.ParseBuffer.MeasureString` | json_parse/jsonlibC/cJSON.c:746-773 | the end of the string, and an estimate that counts the bytes an escape keeps |
| `JsonParser.ParseBuffer.Utf16Literal` | json_parse/jsonlibC/cJSON.c:606-730 | one escape or surrogate pair, with the bytes consumed, or refusal |
| `JsonParser.WriteUtf8` | json_parse/jsonlibC/cJSON.c:674-724 | the UTF-8 form of the code point, written last byte first (section 3 of RFC 3629) |
| `JsonParser.KeptGrows` | json_parse/jsonlibC/cJSON.c:746-774 | the size estimate only grows along the string |
| `JsonParser.ParseBuffer.ParseHex4` | json_parse/jsonlibC/cJSON.c:567-603 | the value of four hexadecimal digits, 0 if one is none |
| `JsonParser.ParseBuffer.ParseNumber` | json_parse/jsonlibC/cJSON.c:283-361 | the longest numeric prefix, as strtod takes it |
| `JsonParser.ParseBuffer.ParseValue` | json_parse/jsonlibC/cJSON.c:1258-1316 | agrees with the parsing function on every NUL-terminated text |
| `JsonParser.ParseBuffer.ParseArray` | json_parse/jsonlibC/cJSON.c:1392-1489 | likewise for arrays, with the depth restored |
| `JsonParser.ParseBuffer.ParseObject` | json_parse/jsonlibC/cJSON.c:1553-1669 | likewise for objects, with the depth restored |
| `JsonParser.ParseWithOpts` | json_parse/jsonlibC/cJSON.c:1040-1119 | the imperative parser computes the parsing function on every C string, with or without the demand for an end |
| `Utf8.DecodeEncode` | json_parse/jsonlibC/cJSON.c:674-724 | the UTF-8 form determines the code point |
| `Utf8.ByteRanges` | json_parse/jsonlibC/cJSON.c:674-724 | lead and trailing bytes lie in their ranges (section 3 of RFC 3629) |
| `JsonCompare.CompareIsEquality` | json_parse/jsonlibC/cJSON.c:2932-3060 | on all trees: equal exactly when both are coherent (every member named and denoting what the first member of its name does, every string with its bytes, nothing invalid) and denote the same value, objects being maps |
| `JsonCompare.CompareIsEquivalence` | json_parse/jsonlibC/cJSON.c:2932-3060 | symmetric and transitive on all trees, reflexive on exactly the coherent ones |
| `JsonCompare.FoldMatching` | json_parse/jsonlibC/cJSON.c:108-130 | folded names are equal exactly when the names are, or where case is not respected differ only in the case of ASCII letters |
| `JsonCompare.OneMember` | json_parse/jsonlibC/cJSON.c:2932-3060 | two objects of one member each are equal exactly when the names match in that sense and the values are equal |
| `JsonCompare.UpperAndLower` | json_parse/jsonlibC/cJSON.c:2932-3060 | A and a as names: different where case is respected, the same where it is not |
| `JsonCompare.DistinctIsCoherent` | json_parse/jsonlibC/cJSON.c:3017-3055 | trees whose names are there and pairwise distinct under the case mode are among them |
| `JsonCompare.RepeatedName` | json_parse/jsonlibC/cJSON.c:3017-3055 | an object with one name twice equals itself exactly when the two values, coherent themselves, denote the same |
| `JsonCompare.RepeatedNameDiffers` | json_parse/jsonlibC/cJSON.c:3017-3055 | true and false under one name: not equal to itself; true twice: equal |
| `JsonCompare.UnnamedDiffers` | json_parse/jsonlibC/cJSON.c:1840-1875 | an object with an unnamed member equals nothing |
| `JsonCompare.GetItem` | json_parse/jsonlibC/cJSON.c:1840-1875 | the first member whose name matches, or none; none for a missing name; where all members are named, none only if no name matches |
| `JsonDuplicate.Duplicate` | json_parse/jsonlibC/cJSON.c:2646-2726 | the recursive copy consists of new nodes only, each once, linked both ways and ended by NULL, with the contents of the original, which is not modified; without recursion it is one node |
| `JsonDuplicate.DuplicateChildren` | json_parse/jsonlibC/cJSON.c:2691-2715 | the copies of the first children, at every turn, hang together below the new node |
| `JsonDuplicate.SameTree` | json_parse/jsonlibC/cJSON.c:2657-2686 | a copy stands for the same tree |
| `JsonDuplicate.CopyCompares` | json_parse/jsonlibC/cJSON.c:2646-2726 | a copy compares equal to its original exactly when that is coherent |
| `Timezone.MkGmTime` | obj_zip/zip30/timezone.c:742-813 | for all integer fields, in range or not: the fields come out normalised and denote the same instant, which is returned exactly when time_t can hold it, else -1; the day of the year is right, the day of the week exactly when its unsigned sum allows |
| `Timezone.WeekdayOf` | obj_zip/zip30/timezone.c:783-791 | for every year: the weekday is right exactly when the leap days lost to rounding toward zero make up, modulo 7, for four days at every wrap of the sum |
| `Timezone.WeekdayInReach` | obj_zip/zip30/timezone.c:783-791 | in the years of time_t it is right |
| `Timezone.WeekdayBefore` | obj_zip/zip30/timezone.c:783-791 | 1 January 1969 comes out as a Sunday, for a Wednesday |
| `Timezone.AdjustTm` | obj_zip/zip30/timezone.c:725-732 | C's truncating operators carry as a floored division does |
| `Timezone.SettleDays` | obj_zip/zip30/timezone.c:758-773 | the two day loops end inside a month of the same day |
| `Timezone.Encode` | obj_zip/zip30/timezone.c:783-812 | day of the year, day of the week, and the instant or -1; the unsigned sums do not wrap where the result is used |
| `Timezone.GmTime` | obj_zip/zip30/timezone.c:530-556 | for every time from 0 on: all fields in range, weekday and day of the year right, and together they denote the time |
| `Timezone.GmTimeAndBack` | obj_zip/zip30/timezone.c:530-813 | mkgmtime undoes gmtime on every time that time_t holds |
| `Timezone.NormalFieldsUnique` | obj_zip/zip30/timezone.c:530-813 | fields in range are determined by the instant they denote |
| `Timezone.TransTime` | obj_zip/zip30/timezone.c:129-218 | the time given is the rule's own on the day on which the rule falls: the n-th or last such weekday of the month, the Julian day that skips 29 February, or the day of the year |
| `Timezone.NthDay` | obj_zip/zip30/timezone.c:190-202 | the week loop ends on the n-th such weekday, or on the last one, inside the month |
| `Timezone.FirstWeekday` | obj_zip/zip30/timezone.c:177-188 | the congruence gives the weekday of the first of the month |
| `Timezone.GenerateTransitions` | obj_zip/zip30/timezone.c:220-257 | for every year the two changes, the earlier first, on the local clock that runs before each; the table has room for them and is full when time_t is unsigned |
| `Timezone.TransitionFits` | obj_zip/zip30/timezone.c:220-257 | with clocks no more than two weeks off, a signed time_t holds every entry of the table, an unsigned one all but those before the epoch itself |
| `Timezone.BeforeTheEpoch` | obj_zip/zip30/timezone.c:220-257 | one of those: midnight of 1 January 1970 an hour east of Greenwich |
| `Calendar.NLeapCounts` | obj_zip/zip30/timezone.c:82-86 | the closed form counts the leap years from 1970 on, for every later year |
| `Calendar.FloorLeapsCount` | obj_zip/zip30/timezone.c:82-86 | with divisions that round down it does so in both directions from 1970, for every year |
| `Calendar.Zeller` | obj_zip/zip30/timezone.c:177-188 | Zeller's sum is the true weekday of the first of every month of every year from 1970 on |
| `Calendar.MonthTables` | obj_zip/zip30/timezone.c:88-103 | the three month tables and monthlen agree |
| `Calendar.NextMonth` | obj_zip/zip30/timezone.c:758-773 | month lengths add up across years |
| `Sha1.HashChunks` | mongoose_boj/mongoose/mongoose.c:2436-2487 | any cutting of a message into updates gives the SHA-1 digest of the whole (sections 5.1.1 and 6.1.2 of FIPS 180-4) |
| `Sha1Answer.HashAbc` | mongoose_boj/mongoose/mongoose.c:2436-2487 | the digest of abc is the published one, by all eighty words of the schedule and all eighty rounds |
| `Sha1.Transform` | mongoose_boj/mongoose/mongoose.c:2330-2434 | rounds on renamed registers over a circular schedule of sixteen words, loaded little-endian, compute the compression of the standard |
| `Sha1.NextWord` | mongoose_boj/mongoose/mongoose.c:2293-2313 | the word stored over the one of sixteen rounds before is the schedule's |
| `Sha1.Step` | mongoose_boj/mongoose/mongoose.c:2314-2328 | a round macro, which rewrites two registers, is a round of the standard, which moves all five |
| `Sha1.MixIsF` | mongoose_boj/mongoose/mongoose.c:2314-2328 | the shortened Boolean functions are those of the standard |
| `Sha1.SwapIsBigEndian` | mongoose_boj/mongoose/mongoose.c:2293-2300 | the rotated and masked word is the big-endian one |
| `Sha1.Context.Update` | mongoose_boj/mongoose/mongoose.c:2445-2463 | the context absorbs the data, however it lies to the blocks |
| `Sha1.Context.Final` | mongoose_boj/mongoose/mongoose.c:2465-2487 | the digest of everything absorbed; the context is erased |
| `Sha1.Context.Pad` | mongoose_boj/mongoose/mongoose.c:2474-2479 | the padding loop ends, after the zeros of the standard |
| `Sha1.CountUp` | mongoose_boj/mongoose/mongoose.c:2449-2451 | the two count words hold the length in bits modulo 2 to the 64, across carries and for lengths over 2 to the 29 |
| `Sha1.LengthByWords` | mongoose_boj/mongoose/mongoose.c:2469-2473 | the count bytes are the 64-bit length, high byte first |
| `Sha1.PaddedIsWhole` | mongoose_boj/mongoose/mongoose.c:2474-2480 | the padded message is whole blocks, with the fewest zeros that make it so |
| `WebSocket.Session` | mongoose_boj/mongoose/mongoose.c:4271-4390 | whatever is given to mg_ws_send in frames within the receive limit, by either side and in any length form, and however it arrives cut, the handlers of the other side get the same opcodes and payloads up to the first close |
| `WebSocket.ReceiveAll` | mongoose_boj/mongoose/mongoose.c:4371-4386 | likewise for any frames on the wire that the receive limit admits, not only the shortest forms; every ping is answered by one pong with its data, and the connection closes exactly if there was a close |
| `WebSocketBits.PayloadReceived` | mongoose_boj/mongoose/mongoose.c:4292-4295 | the payload of a frame received: the bytes behind its header, each bit turned over where that of the mask is set (section 5.3 of RFC 6455) |
| `WebSocketBits.PayloadSent` | mongoose_boj/mongoose/mongoose.c:4329-4333 | and the bytes of a frame sent |
| `WebSocketBits.XorBit` | mongoose_boj/mongoose/mongoose.c:4292-4295 | a bit of the exclusive or is set exactly where those of the two bytes differ, bits being counted by halving |
| `WebSocketBits.HelloMasked` | mongoose_boj/mongoose/mongoose.c:4271-4297 | the masked example of section 5.7 of RFC 6455 |
| `WebSocketBits.HelloPlain` | mongoose_boj/mongoose/mongoose.c:4271-4297 | the example without a mask |
| `WebSocketBits.PingPlain` | mongoose_boj/mongoose/mongoose.c:4366-4371 | its ping |
| `WebSocketBits.PongMasked` | mongoose_boj/mongoose/mongoose.c:4299-4335 | and the masked pong that answers it |
| `WebSocketBits.CloseBare` | mongoose_boj/mongoose/mongoose.c:4375-4380 | a close frame without data |
| `WebSocketBits.LongerHeads` | mongoose_boj/mongoose/mongoose.c:4302-4321 | the headers for 256 and 65536 bytes |
| `WebSocket.Connection.ReadConn` | mongoose_boj/mongoose/mongoose.c:2812-2850 | after every read of any size: what has been delivered and what waits are those of the bytes received; only a full buffer is an error |
| `WebSocket.Connection.FrameLoop` | mongoose_boj/mongoose/mongoose.c:4371-4386 | whole frames are delivered and removed, the rest stays, pings are answered in order |
| `WebSocket.Connection.Turn` | mongoose_boj/mongoose/mongoose.c:4371-4385 | one frame: event, answer, removal; an incomplete one leaves everything as it was; a close frame stays |
| `WebSocket.Connection.WsProcess` | mongoose_boj/mongoose/mongoose.c:4271-4297 | the length of the frame at the head of the buffer, unmasked in place, or 0 and the buffer untouched (section 5.2 of RFC 6455) |
| `WebSocket.Connection.WsSend` | mongoose_boj/mongoose/mongoose.c:4299-4335 | one frame on the wire in the shortest form, masked in place for a client (section 5.3 of RFC 6455) |
| `WebSocket.IoBuf.Append` | mongoose_boj/mongoose/mongoose.c:1534-1546 | the bytes behind those that were there, in a buffer grown as needed |
| `WebSocket.IoBuf.Delete` | mongoose_boj/mongoose/mongoose.c:1548-1554 | the first bytes gone, the rest moved up, the tail zeroed; nothing when asked for too much |
| `WebSocket.IoBuf.MaskInPlace` | mongoose_boj/mongoose/mongoose.c:4292-4295 | the bytes exclusive-or the four before them, in place |
| `WebSocket.SumWraps` | mongoose_boj/mongoose/mongoose.c:4284-4296 | the program's 64-bit sum of header and payload length gives what this model gives exactly when it does not wrap, or wraps to 0 or to more than has arrived |
| `WebSocket.AllOnes` | mongoose_boj/mongoose/mongoose.c:4284-4296 | a length of all ones does wrap: no frame has arrived, and nine bytes are taken |
| `WebSocket.FrameAtWire` | mongoose_boj/mongoose/mongoose.c:4271-4297 | a frame sent is the frame found, whatever follows it |
| `WebSocket.WireOfFrameAt` | mongoose_boj/mongoose/mongoose.c:4271-4297 | a frame found is a frame that was sent, in some length form |
| `WebSocket.WirePrefixFree` | mongoose_boj/mongoose/mongoose.c:4271-4335 | bytes can be cut into frames in one way only |
| `WebSocket.DeliverMore` | mongoose_boj/mongoose/mongoose.c:4371-4386 | delivery does not depend on where the stream is cut |
| `WebSocket.DeliverWires` | mongoose_boj/mongoose/mongoose.c:4371-4386 | frames on the wire are delivered one by one up to the first close |
| `WebSocket.DeliverPart` | mongoose_boj/mongoose/mongoose.c:4371-4386 | a part of the stream delivers a beginning of what all of it does |
| `WebSocket.LittleWaits` | mongoose_boj/mongoose/mongoose.c:2812-2820 | less than one frame waits in the buffer, so frames within the limit never fill it |
| `WebSocket.MaskedTwice` | mongoose_boj/mongoose/mongoose.c:4292-4295 | masking undoes masking |
| `Crc.Crc32ByWords` | obj_zip/zip30/crc32.c:655-728 | the little-endian builds with one table or four, for any address and length: the bit-by-bit CRC continued from the given one, 0 for no buffer |
| `Crc.Crc32Unrolled` | obj_zip/zip30/crc32.c:680-728 | the plain build with eight steps to a turn: the same |
| `Crc.MgCrc32` | mongoose_boj/mongoose/mongoose.c:4162-4170 | the bit-by-bit loop computes the reference function |
| `Crc.CheckValue` | obj_zip/zip30/crc32.c:680-728 | the check value 0xCBF43926 of the digits 1 to 9 |
| `Crc.MakeCrcTable` | obj_zip/zip30/crc32.c:115-171 | table k holds, for every byte, the register after that byte and k zero bytes |
| `Crc.DoOpt4` | obj_zip/zip30/crc32.c:661-670 | a word added, and four look-ups or four updates, are four bytes fed one by one |
| `Crc.Do1` | obj_zip/zip30/crc32.c:648-651 | a look-up is a byte fed bit by bit |
| `Crc.ByTable` | obj_zip/zip30/crc32.h:47-56 | the register after eight bits is a table entry for its low byte, exclusive-or the rest of it |
| `Crc.FourTables` | obj_zip/zip30/crc32.c:661-664 | thirty-two bits of a word are four look-ups, each byte in its own table |
| `Crc.BitsXor` | obj_zip/zip30/crc32.c:66-80 | shifting the register is linear |
| `Crc.CrcConcat` | obj_zip/zip30/crc32.c:680-728 | the CRC of a concatenation is the CRC continued from the first part |
| `Crypt.CloakAndBare` | obj_zip/zip30/crypt.c:246-441 | for every password, CRC, random header and byte stream: what zipcloak writes passes the check of zipbare, which gives the stream back and the entry its size and flags |
| `Keystream.MixedIs` | obj_zip/zip30/crypt.c:125-133 | the key stream byte in whole numbers, from the low sixteen bits of the third key |
| `Keystream.FirstByte` | obj_zip/zip30/crypt.c:125-133 | the first key stream byte of the empty password |
| `Keystream.PasswordAb` | obj_zip/zip30/crypt.c:139-177 | the keys of the password ab |
| `Keystream.ZipUnderAb` | obj_zip/zip30/crypt.h:126-127 | three bytes of data under that password |
| `Keystream.FourBytes` | obj_zip/zip30/crypt.c:229-236 | the bytes taken out of a word are its four bytes |
| `Crypt.ZipCloak` | obj_zip/zip30/crypt.c:246-303 | the header and the encryption of the data, or an early end of input |
| `Crypt.ZipBare` | obj_zip/zip30/crypt.c:333-424 | a last header byte that does not fit leaves the entry copied, as long as it says it is, or the copy fails; else the decryption of the data, or an early end of input, also where the size is less than the header's and wraps |
| `Crypt.CloakData` | obj_zip/zip30/crypt.c:285-303 | the data loop through the 1024-byte buffer, with the keys of the whole text so far |
| `Crypt.BareData` | obj_zip/zip30/crypt.c:405-424 | the data loop of decryption, with the keys in step |
| `Crypt.Cipher.CryptHead` | obj_zip/zip30/crypt.c:207-237 | random bytes encrypted twice and the high half of the CRC, with the keys left ready for the data |
| `Crypt.Cipher.UpdateKeys` | obj_zip/zip30/crypt.c:139-151 | the keys step by the CRC of the byte, bit by bit, in the first and third and by the congruence in the second |
| `Crypt.Cipher.Encode` | obj_zip/zip30/crypt.h:126-127 | one byte more of the encryption, keys in step |
| `Crypt.Cipher.Decode` | obj_zip/zip30/crypt.h:129-130 | one byte more of the decryption, with the keys of the plain text so far |
| `Crypt.DecryptEncrypt` | obj_zip/zip30/crypt.h:126-130 | decryption undoes encryption from the same keys |
| `Crypt.EncryptDecrypt` | obj_zip/zip30/crypt.h:126-130 | and encryption decryption: the cipher is one-to-one on every length |
| `Crypt.DecryptPart` | obj_zip/zip30/crypt.h:126-130 | a beginning is decrypted without what follows |
| `Crypt.RestoresEntry` | obj_zip/zip30/crypt.c:229-236 | in what zipcloak writes the last header byte decrypts to the high byte of the CRC and the rest to the data |
| `SplitWriter.WriteAll` | obj_zip/zip30/fileio.c:2568-2769 | any run of calls: the splits together are the buffers together, the headers placed are those that calls have written, in order, every one lies in one split, the byte counts add up; if no buffer is larger than a split, no split is too large, and each but the last is full or was ended by a header that had no room in it |
| `SplitWriter.Writer.BfWrite` | obj_zip/zip30/fileio.c:2568-2769 | one call: where the bytes go, the counts, the marks of local header and central directory |
| `SplitWriter.AfterConserves` | obj_zip/zip30/fileio.c:2592-2735 | nothing is lost, added or moved, whatever the sizes |
| `SplitWriter.AfterFits` | obj_zip/zip30/fileio.c:2592-2607 | splits stay within their size exactly when what does not go into the current one is no larger than a split |
| `SplitWriter.OversizedBuffer` | obj_zip/zip30/fileio.c:2592-2607 | a larger buffer: the new split outgrows its size, and then the unsigned room wraps and the split grows without end |
| `SplitWriter.HeaderWhole` | obj_zip/zip30/fileio.c:2597-2607 | a header is not cut |
| `SplitWriter.EndedAfter` | obj_zip/zip30/fileio.c:2597-2607 | every closed split was full, or the header that begins the next had no room |
| `SplitWriter.CdStartRight` | obj_zip/zip30/fileio.c:2610-2616 | the recorded start of the central directory is its first header's exactly when that header fitted into the current split |
| `SplitWriter.StaleDirectory` | obj_zip/zip30/fileio.c:2610-2664 | 90 bytes of data and a header of 46 in splits of 100: the directory is recorded at split 0, offset 90, its header lies at the start of split 1, and the count for split 1 is 0 |
| `SplitWriter.CountRight` | obj_zip/zip30/fileio.c:2617-2663 | the count of entries on the current disk is right exactly when the disk was not opened by one of them |
| `Ucs4.StringBack` | obj_zip/zip30/fileio.c:2902-3023 | every zero-free string of values up to 0x7FFFFFFF comes back from its UTF-8 form |
| `Ucs4.CharBack` | obj_zip/zip30/fileio.c:2860-2959 | one character, whatever stands around it |
| `Ucs4.ReencodedIff` | obj_zip/zip30/fileio.c:2860-2959 | an accepted character is what the encoder writes exactly when its value needs that many bytes: below 0x7F for one, from 0x7F for two, and for more from the limit of one byte less |
| `Ucs4.DelInTwo` | obj_zip/zip30/fileio.c:2941-2952 | 0x7F is accepted in one byte and written in two |
| `Ucs4.LongZero` | obj_zip/zip30/fileio.c:2902-2921 | an overlong zero is accepted, and ends the string |
| `Ucs4.Utf8CharBytes` | obj_zip/zip30/fileio.c:2860-2889 | the length a lead byte announces if that many trailing bytes follow, without reading past the terminator |
| `Ucs4.Ucs4CharFromUtf8` | obj_zip/zip30/fileio.c:2902-2921 | the character and the next position, or -1 and no movement |
| `Ucs4.Utf8FromUcs4Char` | obj_zip/zip30/fileio.c:2929-2959 | the bytes of the character, -1 above 0x7FFFFFFF |
| `Ucs4.LeadOf` | obj_zip/zip30/fileio.c:2933-2951 | the loop ends with the fewest trailing bytes, at least one, that leave room in the lead byte |
| `Ucs4.Utf8ToUcs4String` | obj_zip/zip30/fileio.c:2968-2989 | the count does not depend on the buffer, which gets as much as it holds; -1 exactly when the text is ill-formed |
| `Ucs4.Ucs4StringToUtf8` | obj_zip/zip30/fileio.c:2996-3023 | likewise; -1 exactly when some character has no UTF-8 form |
| `Ucs4.ThereAndBack` | obj_zip/zip30/fileio.c:2968-3023 | sizes asked for with no buffer, then both conversions: the string comes back |
| `LinkedList.Run` | dstruct/linkedlist/linkedlist.c:38-131 | any run of calls, in the order in which they get the lock and each with a node count of any age: next and pre stay mutually inverse in one cycle through the head, the count is the length, and the nodes are those of the same run on a sequence |
| `LinkedList.List.InsertLkNode` | dstruct/linkedlist/linkedlist.c:38-69 | insertion where the index leads, or the error and no change |
| `LinkedList.List.InsertHead` | dstruct/linkedlist/linkedlist.c:71-75 | insertion in front |
| `LinkedList.List.InsertTail` | dstruct/linkedlist/linkedlist.c:77-98 | insertion at the end |
| `LinkedList.List.RemoveLkNode` | dstruct/linkedlist/linkedlist.c:100-131 | the node of that index from the front or the back is taken out and given back, or the error and no change |
| `LinkedList.List.ForEach` | dstruct/linkedlist/linkedlist.c:133-153 | the nodes are visited in order up to the first negative answer, which is returned |
| `LinkedList.List.constructor` | dstruct/linkedlist/linkedlist.c:6-26 | an empty cycle |
| `LinkedList.List.Walk` | dstruct/linkedlist/linkedlist.c:51-57 | so many steps forwards or backwards round the cycle |
| `LinkedList.PlaceIs` | dstruct/linkedlist/linkedlist.c:43-57 | an index in range names its own position; any other is wrapped round the cycle |
| `LinkedList.InsertedWhere` | dstruct/linkedlist/linkedlist.c:43-63 | the node comes to lie at one place, the one asked for from front or back exactly when the index is in range of the nodes that are there; with any other the index is wrapped round |
| `LinkedList.StaleCount` | dstruct/linkedlist/linkedlist.c:43-63 | a count of two tested before the lock, one node behind it: an insertion behind the second goes in front |
| `LinkedList.RemoveUndoesInsert` | dstruct/linkedlist/linkedlist.c:38-131 | what was inserted can be taken out by its position |

## Left out

- Deflate: Huffman coding, bit output and ZIP headers; the builds with ASMV, MMAP, BIG_MEM, FORCE_METHOD, DEFL_UNDETERM, FILTERED and UNALIGNED_OK; input that is in memory already (window_size above 0); the FAST and SLOW flags of lm_init; progress dots.
- Deflate: block_start is unbounded; zip.h and trees.c are not part of this model.
- cJSON: floating point (print and parse of number values, NaN and infinity printed as null), locales, allocator hooks, error positions, cJSON_Minify, and raw or reference items in the printed text.
- cJSON: the printer's branch that allocates and copies by hand instead of calling realloc, and failing allocations in the parser and in cJSON_Duplicate.
- JsonCompare.CompareIsEquality: numbers are reals, so NaN is not covered; the trees share no node, so that the shortcut for equal pointers is never taken.
- JsonParser.ParseBuffer.ParseNumber: the number is its lexeme; valuedouble and the saturated valueint are floating point.
- JsonParser.ParseBuffer.ParseArray: the elements form a sequence; their next and prev links are not modelled here, as they are in `JsonDuplicate`.
- JsonParser.ParseBuffer.ParseObject: the members form a sequence, likewise.
- JsonDuplicate.Duplicate: strings are values, so that it does not show which a copy shares with its original.
- Time zone: mktime and its DST flag, parsing of TZ strings, negative times in gmtime, the order of transitions of different years.
- Timezone.MkGmTime: the fields are unbounded, so overflow of int is not modelled.
- Timezone.TransTime: the sums of time_t are unbounded; `Timezone.TransitionFits` says where that makes no difference.
- Timezone.GenerateTransitions: likewise, for the entries that it compares and stores.
- Mongoose: sockets, TLS, HTTP and the handshake, logging, draining of the send buffer, HMAC.
- WebSocket.Session: payloads are at most the receive limit less a header; a larger frame makes the reader close, as `WebSocket.Connection.ReadConn` says.
- WebSocket.Connection.WsProcess: the sum of header and payload length is not cut to 64 bits, because where it wraps the program unmasks and delivers bytes outside the buffer; `WebSocket.SumWraps` says when.
- WebSocket.Connection.ReadConn: likewise; handlers leave the receive buffer alone, and allocation does not fail.
- WebSocket.IoBuf.Append: an allocation that fails, after which nothing is appended.
- SHA-1: a big-endian host.
- CRC: the big-endian build and the literal tables of the static build.
- Crypt: password entry, local headers, zip's own reading and writing of entries; random bytes are a parameter.
- SplitWriter.Writer.BfWrite: items of more than one byte, writes that fail, which split files are open or closed, and dots.
- LinkedList: the free of list heads, the macros of linkedlist.h, a NULL list head, a callback that changes the list.
- Base64, URL coding, MQTT, MD5, crc16 and the other modules of the repository: easier, or without a specification that holds.
