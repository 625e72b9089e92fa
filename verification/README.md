# Ptt BBS: a verified model of its core algorithms

This project models the small, state-heavy algorithms of the Ptt bulletin board system and proves what they are
for. Tables, hash functions, S-boxes, keys, file contents, system answers and schedules are arbitrary: every result
holds for all of them. `dafny verify dfyconfig.toml` checks the whole project.

- **Text migration** (`Sgr66Lex`, `Sgr66`, `Terminal`, `Sgr66Rendering`, `Utf8Rendering`, `Sgr66Idempotence`). The board's terminal,
  byte by byte, is the meaning of a text; it is that of mbbsd/pfterm.c (`outc`, `out_mbchar`, `out_ftchar` and the
  command executor, lines 69-71, 254, 1043-1049, 1774-1865, 1867-2040, 2261-2282 and 2385-2500), OSC strings, commands
  whose parameters follow ESC at once, and numbers beyond an int included. The conversion that merges colour sequences
  inside a Big5 character into one SGR 66 sequence keeps what that terminal draws, and its UTF-8 output is drawn
  likewise by the terminal built for UTF-8, exactly when every merged sequence fits the terminal's 63 bytes for a
  command. SGR is section 8.3.117 of ECMA-48.
- **Encodings** (`Utf8Spec`, `Utf8Decoder`, `Converters`). UTF-8 from RFC 3629 (sections 3 and 4), the incremental
  decoder, the validator, the bounded converters both ways, and the streaming reader, with the exact conditions under
  which reader and bounded converter agree, and under which one buffer for both sides makes no difference.
- **Article search** (`ArticleSearch`). The staged search of a nearly sorted index agrees with a plain scan.
- **User hash** (`UserHash`). Chains in arrays, filtered through a moving link pointer and completed at the tail.
- **Poll archiving** (`Polls`). A move of up to eleven files with an ordered way back, where any system call may
  fail; the trace of the file system is every state that a crash could leave.
- **Ring buffer** (`VBufs`) and **telnet filter** (`Telnet`). In-place algorithms that refine a bounded queue and
  a byte automaton.
- **Message slots, ban table, message service client** (`Messages`, `BanIp`, `Ipc`). A compare-and-swap protocol
  under every schedule, a merged interval index against plain membership, and a packet queue over a byte stream.
- **Codes and ciphers** (`Sha1`, `Sha1Example`, `TwoFactor`, `Base32`, `Bcrypt64`, `Blowfish`). RFC 3174, RFC 2104 (section 2),
  RFC 4226 (section 5.3), RFC 4648 (section 6) without padding, bcrypt's own base64, and in-place block chaining.

`Prelude`, `Arith`, `Bytes`, `Numerals`, `MachineWords` and `ByteBuffers` hold what these share.

Conventions: a C buffer that is written is an `array`, one that is only read a `seq`; pointers into a buffer are
indices. On bytes and unsigned words kept as integers, masks and shifts are written as remainders, divisions and
products, and wrap-around as a remainder. In `BanIp` bitwise and/or are defined on the binary digits themselves.
Results that stay within Dafny's bit-vectors use those. That the system refuses a call or breaks it off is a parameter or
recorded in a ghost field, and the contracts say for what other reasons a call can fail. What a
definition means is fixed beside it with its constants written out, or by a published vector.

Where the code does not do what its comments or a caller may expect, a lemma says exactly when it does:

- The comment at `common/bbs/aids.c:154-156` (the window always holds an article of the target second) is true exactly
  while two records of one second are at most the bound and 127 apart: `BoundIsTight`; one more, even on a sorted
  index, and an article is missed: `SameSecondMissed`.
- `vbuf_flat` loses the order when more than 128 bytes are wrapped: `VBuf.Flat`; `FlatInPlace` has no such limit.
- `vbuf_peekat` misses the first piece of a wrapped buffer, and `vbuf_getstr` loses the last byte it takes unless a zero
  byte ends the string or exactly one place is left: `VBuf.PeekAt`, `VBuf.GetStr`.
- Converting Big5 to UTF-8 in one buffer can lose the question mark of a broken character: `SharedAgreesIff`,
  `SharedLosesMark`.
- A terminal type of 30 bytes or more leaks into the input: `TtypeReadBackIff`.
- With a client-code hook the telnet fast path can be seen, in as many bytes as arrive in pieces without commands:
  `CutsShowIff`.
- A Big5 pair without an entry is written as the code point of its own two bytes, and vanishes without a mark when that
  is a surrogate: `AbsentPair`, `AbsentVanishes`; as many characters vanish as entries used are surrogates:
  `VanishedAreSurrogates`.
- A line end in an OSC string is swallowed, although the comment at `mbbsd/pfterm.c:1882` says that it is handled:
  `OscSwallowsLineEnd`.
- The streaming reader and the bounded converter differ on a byte that breaks a character and cannot start one:
  `ReaderAgreesIff`, `ReaderDiffers`.
- A ban pattern with a wildcard before a given octet covers more than it matches: `WildcardExactIff`.
- An entry of the password file whose slot is on the chain of another id is linked twice, and cuts that chain; and an id
  that agrees in its first eleven characters is not replaced. The on-the-fly repair leaves a clean table exactly when
  there is no such entry: `UserTable.FillHash`, and for one link `LinkKeepsCleanIff`.

## Model

| member | source | states |
|---|---|---|
| Sgr66Lex.LexKeepsBytes | upgrade/sgr66.c:84-165 | Reading a buffer as plain bytes, colour sequences and characters with sequences inside loses nothing: the tokens' bytes are the buffer. |
| Sgr66Lex.SgrLenShape | upgrade/sgr66.c:7-18 | A recognised sequence is exactly ESC, bracket, parameter bytes and m. |
| Sgr66Lex.SgrLenOf | upgrade/sgr66.c:7-18 | Conversely every such string is recognised in front of any text, with its whole parameter run. |
| Sgr66Lex.SgrLenMeans | upgrade/sgr66.c:7-18 | A sequence of some length stands at the front exactly when there are ESC, a bracket, digits and semicolons up to it, and m. |
| Sgr66.ParseSgr | upgrade/sgr66.c:7-18 | The loop returns the length of the colour sequence at a position, 0 if there is none. |
| Sgr66.ScanAgreesWithLex | upgrade/sgr66.c:40-69 | The scan, which skips plain bytes one at a time, sees the same characters as the converter, which takes sequences whole. |
| Sgr66.ScanPairs | upgrade/sgr66.c:40-69 | The loop succeeds exactly when every character is complete and in the table, and reports whether there is one and whether one is split. |
| Sgr66.ScanBig5Uao | upgrade/sgr66.c:20-82 | Returns 1 exactly on buffers that are not UTF-8, are complete, have a character, and whose every character has an entry other than its own two bytes; says exactly whether one is split. |
| Sgr66.ConvertBig5Sgr66 | upgrade/sgr66.c:84-165 | Appends exactly the converted tokens; fails only when memory does or when the buffer ends inside a character. |
| Sgr66.AloneAsWritten | upgrade/sgr66.c:124-146 | Byte for byte: a sequence inside a character comes in front of it, after 66. |
| Sgr66.MergedAsWritten | upgrade/sgr66.c:124-146 | Byte for byte: with a sequence before the character, 66 and the parameters inside follow that one's. |
| Sgr66.PairAsWritten | upgrade/sgr66.c:148-157 | Byte for byte: the three bytes that a character becomes in UTF-8. |
| Sgr66.CharsDecide | upgrade/sgr66.c:27-82 | What the scan reads of a buffer, its characters, decides admission, validity and the split flag as defined on the converter's reading; so what is admitted converts without failing but for memory. |
| ByteBuffers.ByteBuf.Append | upgrade/common.c:12-30 | Growing append: on success the contents are the old ones and the new bytes; it fails only when it needs memory and is refused it, and then they are unchanged. |
| Sgr66Rendering.SplitDrawsTheSame | upgrade/sgr66.c:124-146 | A split character with its preceding sequence draws the same cell, with the same attributes in both halves, before and after merging. |
| Sgr66Rendering.SplitDrawsTheSameIff | upgrade/sgr66.c:124-146 | It draws the same if and only if the merged sequence fits the terminal's 63-byte command buffer, whatever the lengths of the original's own sequences. |
| Sgr66Rendering.FreezeInInputIsLost | upgrade/sgr66.c:125-132 | A concrete text with a parameter 66 of its own that changes its look: the restriction on the input cannot be dropped. |
| Sgr66Rendering.PlainFreezeIsLost | upgrade/sgr66.c:7-18 | The same with the parameters after ESC 1, which the converter does not take for a sequence and the terminal executes. |
| Sgr66Rendering.SplitInCommandDiffers | upgrade/sgr66.c:129-132 | In the middle of any escape command a split character never draws the same after conversion, and in an OSC string it leaves another string: that these are finished before characters cannot be dropped. |
| Sgr66Rendering.TooLongDiffers | upgrade/sgr66.c:124-146 | When it does not fit, something else than the original is shown, whatever the original's own lengths; if those fit, a command stands where the character was. |
| Sgr66Rendering.ConvertDrawsTheSameIff | upgrade/sgr66.c:84-165 | For any token list from any state between tokens, the converted tokens draw the same and leave the same state if and only if every merged sequence fits; if not, something different is shown. |
| Sgr66Rendering.RenderingPreservedIff | upgrade/sgr66.c:84-165 | An admitted buffer is drawn the same after conversion, with the same final state, if and only if every merged sequence fits the terminal; sequences that are not merged may have any length. |
| Sgr66Rendering.ModestDrawsTheSame | upgrade/sgr66.c:84-165 | A condition to be read off the text: with parameters of at most nine bytes and no digit 6, no other escape, and at most 59 bytes inside a character and parameters before it, the converted text is drawn the same. |
| Utf8Rendering.RunEncoding | upgrade/sgr66.c:148-153 | The encoding of a code point of width 2 is drawn at its last byte, the left half latched or as when it began, the right half as now. |
| Utf8Rendering.EmitAlike | upgrade/sgr66.c:84-165 | The UTF-8 output shows on the UTF-8 terminal what the Big5 output shows on the Big5 terminal, however long its sequences are. |
| Utf8Rendering.DrawnInUtf8Iff | upgrade/sgr66.c:84-165 | After migration to UTF-8, every character is shown by its table entry with the original left and right attributes, all else and the final state are as before, if and only if every merged sequence fits. |
| Sgr66Idempotence.StableIsReadBack | upgrade/sgr66.c:7-18 | Tokens that cannot run together are read back exactly from their bytes. |
| Sgr66Idempotence.ConvertIsStable | upgrade/sgr66.c:84-165 | Conversion keeps tokens from running together, so its output reads back as the converted tokens. |
| Sgr66Idempotence.SecondConversion | upgrade/sgr66.c:84-165 | The Big5 output of an admitted buffer has no split character and converts to itself. |
| Sgr66Idempotence.UnsplitUnchanged | upgrade/sgr66.c:84-165 | A text without split characters is returned byte for byte. |
| Sgr66Idempotence.MigratedIsRefused | upgrade/sgr66.c:74-75 | For any table the UTF-8 output is well-formed, and so a second scan refuses it. |
| Utf8Spec.EncodeIsChar | common/sys/utf8.c:69-103 | Every encoding obeys the grammar of RFC 3629 section 4, its proper prefixes are incomplete characters, and it reads back as the scalar. |
| Utf8Spec.CharIsEncode | common/sys/utf8.c:8-67 | Every string of the grammar is the encoding of exactly one scalar value. |
| Utf8Spec.CharIffScalarInRange | common/sys/utf8.c:24-30 | The decoder's checks on the number (overlong, surrogate, too large) admit exactly the strings of the grammar. |
| Utf8Spec.WellFormedIffEncoding | upgrade/common.c:76-86 | A string is well-formed if and only if it is a concatenation of encodings of scalar values. |
| Utf8Spec.EncodeAllInjective | common/sys/utf8.c:69-103 | Equal encodings come from equal strings of scalars. |
| Utf8Decoder.FeedEncoding | common/sys/utf8.c:8-67 | Feeding an encoding byte by byte stays pending until its last byte, and then the scalar is ready. |
| Utf8Decoder.TailExtends | common/sys/utf8.c:17-35 | A tail byte extends the number by six bits; the completed number alone decides between a character and an error. |
| Utf8Decoder.Utf8Ctx.AddByte | common/sys/utf8.c:8-67 | The context shows a complete character, an incomplete one, or an error, as the grammar says of the bytes so far. |
| Utf8Decoder.Utf8Ctx.GetUcs | include/multibyte.h:85-96 | A ready character's code point is handed out once and the context is empty after it; otherwise nothing changes. |
| Utf8Decoder.Utf8Ctx.FromUcs | common/sys/utf8.c:69-103 | Encodes exactly the scalar values; anything else gives length 0. |
| Utf8Decoder.IsValidUtf8 | upgrade/common.c:76-86 | Accepts a string if and only if it is well-formed. |
| Utf8Decoder.FeedDecides | upgrade/common.c:81-85 | What the decoder makes of a prefix decides the whole: a ready character leaves the rest to decide, an error refutes, an unfinished end refutes. |
| Converters.Big5ToUtf8 | common/sys/utf8.c:253-305 | Writes the characters that fit below the capacity, whole, stopping at the first that does not, and a zero; nothing past the capacity changes. |
| Converters.Big5ToUtf8WholeCharacters | common/sys/utf8.c:276-303 | For any table the output is well-formed UTF-8 and the longest whole-character prefix of the uncapped result that fits. |
| Converters.Big5Read | common/sys/utf8.c:276-303 | How Big5 text is read from its front: a zero ends it, and a lead byte at its end; ASCII stays. |
| Converters.Big5PairRead | common/sys/utf8.c:279-296 | A lead byte with a trail byte is its entry, written out; without one it is a question mark, and what follows is read. |
| Converters.Big5ToUtf8Shared | common/sys/utf8.c:257-273 | In one buffer, a copy of fewer bytes than the capacity is converted; the buffer stays as it is exactly when there is no memory for a copy, of 512 bytes or more. |
| Converters.SharedResultIs | common/sys/utf8.c:257-273 | For any table, the result with two buffers is the one with a shared buffer and what would still have fitted of the characters that the copy cuts off. |
| Converters.SharedAgreesIff | common/sys/utf8.c:257-273 | On text whose two-byte characters take at least two bytes in UTF-8, sharing makes no difference if and only if the copy does not end inside a broken character for which exactly one byte is left. |
| Converters.SharedLosesMark | common/sys/utf8.c:257-273 | Such a text: of 81 20, with room for one byte, the shared buffer loses the question mark. |
| Converters.ZeroInUtf8Iff | common/sys/utf8.c:286-300 | For an arbitrary table, the result has a zero byte exactly when the text uses an entry that is zero. |
| Converters.VanishedAreSurrogates | common/sys/utf8.c:286-303 | For any table and text, as many characters leave nothing as entries used are surrogates. |
| Converters.AbsentPair | common/sys/utf8.c:284-303 | A pair that the table maps to itself, as the generated one does with pairs it lacks, becomes the code point of its two bytes, and nothing exactly for lead bytes D8 to DF. |
| Converters.AbsentVanishes | common/sys/utf8.c:284-303 | Such a pair: nothing is left of D8 7F. |
| Converters.Utf8ToBig5 | common/sys/utf8.c:205-245 | Terminates despite stepping back (twice the bytes left plus one if pending), stays below the capacity, and writes whole pieces, one per character, error or cut-off end. |
| Converters.ConvertRead | mbbsd/convert.c:48-102 | The buffer gets the converted bytes up to its capacity, the count is of all of them, and what a chunk cuts stays pending. |
| Converters.ChunksInvisible | mbbsd/convert.c:48-102 | However a stream is cut into chunks, output and pending bytes are those of the whole. |
| Converters.ReaderAgreesIff | mbbsd/convert.c:48-102 | On text without zeros, with ASCII fixed, reader over any chunks and bounded converter agree if and only if no byte both breaks a character and cannot begin one. |
| Converters.ReaderDiffers | mbbsd/convert.c:48-102 | Such a text: of C2 FF the reader makes one question mark, the bounded converter two. |
| Converters.ReaderAgreesOnWellFormed | common/sys/utf8.c:205-245 | On well-formed text they always agree, with any sufficient capacity, and nothing is left pending. |
| Converters.ThereAndBack | common/sys/utf8.c:205-305 | For any tables that agree on a text's code points, each converter takes back what the other makes of it, and the reader's Big5 over any chunks is the same. |
| Converters.RoundTrip | common/sys/utf8.c:205-305 | UTF-8 text that has a Big5 form is converted to Big5 and back to itself. |
| Converters.Unmapped | common/sys/utf8.c:226-229 | A code point past U+FFFF or with a zero entry becomes a question mark. |
| Converters.BrokenUtf8Read | common/sys/utf8.c:214-242 | A byte that begins no character, and one broken off by the end or another byte, are one question mark each in the bounded converter; the reader keeps what the end cuts off. |
| Converters.UnitsLength | common/sys/utf8.c:214-242 | The bounded converter writes exactly one byte more for each such byte, and one for a cut-off end. |
| ArticleSearch.LastMatchIs | common/bbs/aids.c:161-185 | A position is the last match of a range exactly when it matches and nothing after it does. |
| ArticleSearch.ScanBack | common/bbs/aids.c:131-151 | The backward scan in batches finds the last match of its range whatever the batch bounds; what it returns is always a match. |
| ArticleSearch.BinarySearch | common/bbs/aids.c:100-112 | The loop ends at the position of the last probe, in range. |
| ArticleSearch.ShiftWindow | common/bbs/aids.c:68-95 | Finds the last match from 32 before the hint to 4 after it, within the index. |
| ArticleSearch.StampWindow | common/bbs/aids.c:99-151 | Finds the last match of the window around the probe; the window stays inside the index and has its full size. |
| ArticleSearch.SearchByStamp | common/bbs/aids.c:43-186 | Whatever it returns is a match; on a readable index it is exactly the position the stages name. |
| ArticleSearch.UnboundedFindsAny | common/bbs/aids.c:188-198 | Without a bound it finds a record if and only if a plain scan would. |
| ArticleSearch.ProbeIsNear | common/bbs/aids.c:101-112 | Over a nearly sorted index every record of the target stamp is near the last probe. |
| ArticleSearch.BoundedFindsAny | common/bbs/aids.c:153-158 | With a bound it still finds a record if and only if a scan would, when records out of order are within the bound and those of the target second within the bound and 127 more. |
| ArticleSearch.BoundIsTight | common/bbs/aids.c:153-158 | The bounded search misses nothing on any index whose disorder is within the bound and whose records of the target second are at most a given distance apart, if and only if that distance is at most the bound and 127. |
| ArticleSearch.SameSecondMissed | common/bbs/aids.c:154-156 | For every bound, a sorted index with records of one second one position further apart on which the bounded search misses the only match. |
| ArticleSearch.SearchByAidu | common/bbs/aids.c:200-223 | The search by article id is sound, and complete under the same conditions; id 0 finds nothing. |
| ArticleSearch.AiduFields | common/bbs/aids.c:205-211 | An article id is its index hint, type bit, 32-bit stamp and 12-bit suffix, each read back from its place (laid out at include/pttstruct.h:167-195). |
| ArticleSearch.FindArticle | common/bbs/aids.c:200-223 | Searching for the id made of these parts finds a record exactly when one has the letter (M, G, or L for a locked pinned M), the stamp and the suffix and is visible in the mode. |
| ArticleSearch.FoundIsPreferred | common/bbs/aids.c:53-95 | Of several matches the hinted record is found, else the last from 32 before the hint to 4 after it, else, in a short index, the last of all. |
| UserHash.ChainNoRepeat | util/uhash_loader.c:64-84 | A finite chain meets no slot twice. |
| UserHash.UnlinkAfter | util/uhash_loader.c:71-79 | Unlinking the slot after a cell shortens every chain through that cell by that slot, and no other chain. |
| UserHash.KeptIsInBucket | util/uhash_loader.c:71-79 | Filtering a chain keeps exactly its slots of the bucket, and the whole chain when it holds no other. |
| UserHash.UserTable.CheckHash | util/uhash_loader.c:64-84 | Repairs a bucket in place from any acyclic chains, shared ones too: its chain becomes exactly its own slots in order; another chain only loses slots, none if it shares none or is clean; a clean bucket changes nothing. |
| UserHash.UserTable.LinkTail | util/uhash_loader.c:155-165 | A slot on the chain changes nothing; another is linked at the tail of exactly that chain. |
| UserHash.UserTable.AddToHash | util/uhash_loader.c:129-166 | Enters id and money and links the slot, or does nothing for an entry without a proper id after 1000 such; the whole new state is stated. |
| UserHash.UserTable.FillHash | util/uhash_loader.c:85-128 | From any chains that end, shared or misplaced, every bucket chain ends finite and without repetition. After a load always, and after an on-the-fly repair if and only if each entered record has its bucket already or its slot is on no filtered chain and is renamed, the table is clean: every chain holds only its own slots. Then every user with a proper id (2 to 12 letters and digits, a letter first) is on its chain, as are the first 1000 other entries, and no further one is added; the chains are the old ones without foreign slots (or none), with the missing entries appended in file order. A clean and complete table keeps its links; which ids and money are written is exact. |
| UserHash.RelinkProper | util/uhash_loader.c:155-165 | Linking a slot at a tail keeps every chain finite, shared or not: one that held the slot ends there, one with the same tail grows, any other is as it was. |
| UserHash.ForeignStays | util/uhash_loader.c:129-166 | A slot on a chain of another bucket is never repaired by later records: a chain that loses one is cut at another. |
| UserHash.CompleteHasAll | util/uhash_loader.c:113-117 | Completing the chains from the file leaves no valid user out. |
| UserHash.NamedIsValid | common/bbs/names.c:10-26 | A valid id is 2 to 12 letters and digits, by their character codes, a letter first. |
| UserHash.SamePrefixMeans | util/uhash_loader.c:147-148 | The loader's comparison of ids looks at eleven characters. |
| UserHash.ChangedIdCutsChain | util/uhash_loader.c:147-165 | A slot relinked under a changed id while still on its old chain ends that chain: every slot after it is lost. |
| UserHash.LinkKeepsCleanIff | util/uhash_loader.c:144-165 | When a slot is linked on a clean table, the table stays clean if and only if the slot was on no chain and its id then belongs to the bucket. |
| Polls.FileSystem.CopyNewFile | util/checkpolls.c:171-234 | Never replaces a file; on success the copy is complete; in every state on the way the original is there and nothing else changes; it fails only when a call is refused or there is a file already. |
| Polls.FileSystem.MoveFile | util/checkpolls.c:239-252 | On success exactly that file moved; on failure it is still at its old place; at every moment its content is at one of the two; it fails only when a call is refused or there is a file already. |
| Polls.SafeMove | util/checkpolls.c:255-317 | One move either way keeps everything in one of its places, and the control file off the board unless all others are there. |
| Polls.PutBack | util/checkpolls.c:291-312 | Puts files back with the control file last, and only if the others are back; -1 exactly as promised, -2 only if a move back was refused, in every intermediate state safe. |
| Polls.ArchivePoll | util/checkpolls.c:254-317 | Whatever fails: no content is lost, nothing else is touched, the control file is on the board only with all others, in every state on the way; 0 means all archived and counted, -1 all on the board. It returns 0 when nothing is refused and no file is in both places, -1 and touches nothing when one is, and -2 only when a move back was refused. |
| VBufs.VBuf.Pop | common/sys/vbuf.c:121-129 | Takes the first byte, or reports the end on an empty buffer. |
| VBufs.VBuf.PopN | common/sys/vbuf.c:131-142 | Drops the first n bytes across the wrap. |
| VBufs.VBuf.Add | common/sys/vbuf.c:144-155 | Appends a byte exactly when there is room. |
| VBufs.VBuf.StrChr | common/sys/vbuf.c:157-186 | The first index of the byte in the bytes held, or the end mark when it is absent. |
| VBufs.VBuf.PutBlk | common/sys/vbuf.c:324-346 | Appends a whole block in at most two pieces, or nothing. |
| VBufs.VBuf.GetBlk | common/sys/vbuf.c:299-322 | Takes a whole block from the front in at most two pieces, or nothing. |
| VBufs.FlattenedByReversal | common/sys/vbuf.c:239-248 | Three reversals and a move put the wrapped pieces in order. |
| VBufs.VBuf.FlatInPlace | common/sys/vbuf.c:233-249 | Makes the bytes contiguous and keeps them, with no limit on the wrapped part. |
| VBufs.VBuf.PeekAt | common/sys/vbuf.c:99-112 | Gives the byte at an index, or the end mark past the end, if and only if the index is not in the first piece of a wrapped buffer and, in one that is not wrapped, does not run around to the cells before its tail. |
| VBufs.VBuf.GetStr | common/sys/vbuf.c:190-207 | Takes a string up to its zero byte; without one, what is taken and what stays are all there was if and only if exactly one place is left for the zero. |
| VBufs.VBuf.Flat | common/sys/vbuf.c:251-277 | Always contiguous with the same bytes; their order is kept when at most 128 are wrapped, and is that of the block rotations otherwise, byte 128 first, so that it is wrong whenever that differs from the first. |
| VBufs.FlattenedMeans | common/sys/vbuf.c:265-273 | The block rotations only move bytes, and put the two pieces in order when there is one block. |
| VBufs.VBuf.CStr | common/sys/vbuf.c:279-292 | A zero-terminated contiguous string of the bytes, in order under the same limit, or nothing for an empty buffer. |
| VBufs.VBuf.GeneralWrite | common/sys/vbuf.c:450-493 | For any answers of the system, short ones and errors too, what was taken is what was at the front, and no longer held; how much is asked for, and which calls return -1, is exact. |
| VBufs.VBuf.GeneralRead | common/sys/vbuf.c:495-538 | For any answers, exactly what the system gave is appended, never past the capacity; how much is asked for, and which calls return -1, is exact. |
| VBufs.DoRun | common/sys/vbuf.c:121-346 | Every run of operations answers as the same run on a bounded first-in first-out sequence. |
| Telnet.TelnetCtx.Handler | common/sys/telnet.c:172-377 | One byte through the automaton: context, reports and whether the byte is data are those of the step; inside a subnegotiation fewer than 32 bytes are held. |
| Telnet.TelnetCtx.ReportOption | common/sys/telnet.c:304-375 | What a finished subnegotiation reports, as a function of the bytes collected. |
| Telnet.TelnetCtx.Process | common/sys/telnet.c:114-137 | Filtering in place: the kept bytes are moved to the front and counted, -1 when none is left, and the fast path is taken only where nothing is to do. |
| Telnet.RunConcat | common/sys/telnet.c:128-134 | The run over joined input is the run over the first part, then the second from its context. |
| Telnet.RequestsAnswered | common/sys/telnet.c:247-302 | WILL for an unknown option is answered by DONT, DO by WONT, and nothing else is answered. |
| Telnet.RequestHeard | common/sys/telnet.c:181-194 | The client-code hook hears a request byte for byte, before its answer. |
| Telnet.CommandsTaken | common/sys/telnet.c:209-264 | Are-you-there is passed on; any other two-byte command is dropped. |
| Telnet.DataKept | common/sys/telnet.c:178-207 | A byte of plain data is kept, and the client-code hook told of it. |
| Telnet.FastPathInvisible | common/sys/telnet.c:121-126 | The fast path keeps the same bytes and context, and the same events but for client code. |
| Telnet.CutsInvisible | common/sys/telnet.c:114-137 | However a stream is cut, bytes kept, final context and write, resize and type events are the same; all events are without a client-code hook. |
| Telnet.CutsShowIff | common/sys/telnet.c:121-126 | However a stream is cut, all events are those of the uncut stream if and only if there is no client-code hook or no byte arrives in a piece without commands; the hook hears exactly that many bytes fewer. |
| Telnet.MessageRead | common/sys/telnet.c:304-375 | A subnegotiation of at most 31 bytes with its IAC bytes doubled is taken whole, from any idle context. |
| Telnet.NawsReadBack | common/sys/telnet.c:324-350 | Every 16-bit width and height is read back as one resize, no data, idle (RFC 1073, section 2). |
| Telnet.WindowSizeWritten | common/sys/telnet.c:320-350 | Byte for byte: what a window size tells the hooks, the client-code hook its class. |
| Telnet.SubnegotiationHeard | common/sys/telnet.c:360-372 | Any other subnegotiation is heard whole by the client-code hook. |
| Telnet.ShortTtypeReadBack | common/sys/telnet.c:352-359 | A type of 1 to 29 bytes is delivered intact (RFC 1091, section 2). |
| Telnet.TermTypeWritten | common/sys/telnet.c:351-359 | Byte for byte: a terminal type between its codes is delivered. |
| Telnet.LongMessageSpills | common/sys/telnet.c:304-317 | Past 31 bytes nothing is reported and the rest of the payload reaches the program as data. |
| Telnet.TtypeReadBackIff | common/sys/telnet.c:304-359 | A terminal type is delivered if and only if it has 1 to 29 bytes; which bytes leak otherwise. |
| Messages.StepInv | common/bbs/message.c:28-61 | Every atomic step of any writer keeps slots exclusive, messages whole and the count covering finished writers. |
| Messages.RunSafe | common/bbs/message.c:28-61 | Under every schedule of any number of writers, no two have the same slot and the count never falls. |
| Messages.RunDelivers | common/bbs/message.c:28-61 | From any slots and count, under every schedule: a message there before is untouched; a finished writer's slot was free, has its process, mode, slot number, sender and text (what it does not give stays as it was), is no other's, and is covered by the count; a writer is refused only when all ten slots are taken. |
| Messages.EmptyMailboxCount | common/bbs/message.c:54-61 | When all writers on an empty mailbox have finished, the count is the number of messages: all, up to ten; exactly the slots below it are taken. |
| Messages.WriterFinishes | common/bbs/message.c:54-61 | A writer that gets its turns finishes in a bounded number of them, whatever the others do. |
| Messages.FreshFinishes | common/bbs/message.c:28-61 | From the start, sixteen turns and two more for each place that the count is short of ten are enough. |
| BanIp.JoinedHolds | common/bbs/banip.c:221-227 | A joined range holds exactly the addresses of its parts, the wrap at the last address included. |
| BanIp.JoinsWhen | common/bbs/banip.c:221-223 | Records are joined exactly when they have one message and the second starts in the first or right after it; at the last address only one from zero does. |
| BanIp.ExtendedIsMerge | common/bbs/banip.c:217-231 | Taking the next record keeps the banned pairs of address and message, the order, and that nothing is left to join. |
| BanIp.Merge | common/bbs/banip.c:215-232 | The in-place merge of a sorted list bans exactly the same pairs, stays sorted by start, and leaves neighbours only of different messages or with an address between them (or at the wrap past the last address). |
| BanIp.Search | common/bbs/banip.c:235-267 | Finds a record if and only if some range contains the address. |
| BanIp.IPv4List.AddRange | common/bbs/banip.c:158-170 | Appends a record, growing a full table without losing one. |
| BanIp.IPv4List.Sort | common/bbs/banip.c:209-233 | For any order the library's sort leaves, sorting and merging keep the set of pairs, and leave the ranges in order and apart. |
| BanIp.IPv4List.Lookup | common/bbs/banip.c:269-280 | A message is found exactly when a loaded range holds the address, and it is one of such a range. |
| BanIp.MaskValue | common/bbs/banip.c:60 | The mask of a prefix length, shifted in 32 bits, is all ones above the host bits, 0 and 32 included. |
| BanIp.CidrExact | common/bbs/banip.c:49-64 | A CIDR entry is refused exactly outside 0 to 32, and holds exactly the addresses with its prefix. |
| BanIp.LastOctetExact | common/bbs/banip.c:82-97 | A short range stays in its /24, between the two last octets in either order. |
| BanIp.WildcardExactIff | common/bbs/banip.c:99-136 | A wildcard pattern's range holds exactly the matching addresses if and only if the wildcards come last. |
| BanIp.RangeExact | common/bbs/banip.c:66-146 | A range entry holds the addresses between its ends in either order, and a single address itself. |
| BanIp.EndsAreAddresses | common/bbs/banip.c:44-146 | Every accepted entry gives a nonempty range of 32-bit addresses. |
| Ipc.HdrReadBack | include/ipc.h:63-70 | A header's bytes are read back as the header. |
| Ipc.HdrWritten | include/ipc.h:63-70 | A header byte for byte: five numbers with their lowest bytes first. |
| Ipc.AckCodeReadBack | common/bbs/ipc.c:255-286 | The code of an acknowledgement, any 32-bit integer, is read from its first four bytes, whatever follows. |
| Ipc.Socket.ReadExact | common/bbs/ipc.c:111-139 | Reads exactly the bytes asked for, in whatever pieces they come; fails only when the system does or they are not there. |
| Ipc.Socket.ReadPayload | common/bbs/ipc.c:257-308 | Keeps what fits and drains the rest, so that the stream is at the next frame again; fails only when the system does. |
| Ipc.PendingQueue.Enqueue | common/bbs/ipc.c:54-73 | Appends one packet to the linked queue, with at most 1024 payload bytes. |
| Ipc.PendingQueue.Dequeue | common/bbs/ipc.c:600-612 | Takes off exactly the first packet. |
| Ipc.PendingQueue.Clear | common/bbs/ipc.c:41-52 | Empties the queue. |
| Ipc.Client.TakeFrame | common/bbs/ipc.c:243-310 | One frame: an acknowledgement answers or is dropped, anything else is queued whole. It ends the connection only on a failing system, an ended stream or a frame of another magic number or version. |
| Ipc.Client.ReadAck | common/bbs/ipc.c:226-320 | The frames read are queued in order but for acknowledgements; the code is that of the first one that answers. One that is there, after frames of this protocol, is found unless the system fails or is late. |
| Ipc.Client.ReadPacket | common/bbs/ipc.c:594-659 | Delivers the first pending packet, else the next of the stream, cut to the caller's room of any size; nothing is delivered only on a failing system, an ended stream or a frame of another protocol, and nothing is lost. |
| Ipc.Client.Request | common/bbs/ipc.c:420-438 | Sends one frame, its header written out, under the next number modulo 2^32; an acknowledgement of it that is there is found unless the system fails or is late, and its code returned; number 0 takes any. |
| Ipc.KeptSmall | common/bbs/ipc.c:291-310 | For frames of at most 1024 payload bytes, what is kept is exactly the packets other than acknowledgements. |
| Ipc.KeptMeans | common/bbs/ipc.c:54-73 | Of each packet other than an acknowledgement, the header and the first 1024 payload bytes are kept, in order. |
| Ipc.KeptTwice | common/bbs/ipc.c:54-73 | Keeping packets twice keeps the same. |
| Ipc.Session | common/bbs/ipc.c:226-320 | Over any interleaving of waits and reads until a disconnect, packets delivered, then pending, then unread are the original sequence; a disconnect has a failing system, an ended stream or another protocol for its reason. |
| Sha1.Transform | common/sys/2fa.c:80-115 | The loops compute the compression function of RFC 3174 section 6.1. |
| Sha1.Sha1Ctx.Update | common/sys/2fa.c:126-140 | Taking in a piece of any length gives the state, count and buffer of the whole message so far. |
| Sha1.SameMessageSameState | common/sys/2fa.c:126-140 | Contexts that took in the same message, however cut, hold the same state, count and buffered bytes. |
| Sha1.CountFill | common/sys/2fa.c:128 | The bit count, kept modulo 2^64, always gives the fill of the buffer. |
| Sha1.GapReached | common/sys/2fa.c:149-152 | The fill loop stops exactly when there is just room for the length, and so terminates. |
| Sha1.Sha1Ctx.AddZeros | common/sys/2fa.c:149-152 | The fill loop terminates with the zero bits of RFC 3174 section 4. |
| Sha1.Sha1Ctx.Final | common/sys/2fa.c:142-157 | The digest is that of RFC 3174 for the whole message, padded as in section 4. |
| Sha1.DigestPieces | common/sys/2fa.c:126-157 | A message cut in any way has the digest of the whole. |
| Sha1Example.AbcDigest | common/sys/2fa.c:80-157 | The digest defined meets the first example of RFC 3174, section 7.3. |
| Sha1.BigEndianAt | common/sys/2fa.c:144-146 | The bytes written by shifts are the number's, highest first. |
| Sha1.LengthBytes | common/sys/2fa.c:143-146 | The length field is the same from the wrapped count as from the length itself. |
| TwoFactor.HmacSha1 | common/sys/2fa.c:159-194 | HMAC-SHA1 as RFC 2104 section 2 defines it, for every key length, with the two pads written out. |
| TwoFactor.CounterBytes | common/sys/2fa.c:201-206 | The counter as eight bytes, written backwards. |
| TwoFactor.Generate2fa | common/sys/2fa.c:200-220 | The six digits of RFC 4226 section 5.3 for the time step. |
| TwoFactor.TruncateExample | common/sys/2fa.c:208-218 | The truncation and digits defined meet the example of RFC 4226, section 5.4. |
| TwoFactor.TruncateKeeps31Bits | common/sys/2fa.c:210-214 | The truncation is the lowest 31 bits of the four bytes at the offset. |
| TwoFactor.DigitsOfRemainder | common/sys/2fa.c:217-218 | The zero-padded remainder has the lowest decimal digits of the truncated value. |
| Base32.ShiftIn | common/sys/2fa.c:52-53 | Shifting bits into a 32-bit word keeps the number pending although high bits are discarded. |
| Base32.ShiftOut | common/sys/2fa.c:54-58 | Taking the top digit moves it from the pending bits to the result. |
| Base32.Base32Encode | common/sys/2fa.c:43-68 | The five-bit groups of the data with zero bits to fill the last (RFC 4648 section 6); -1 exactly when they and a zero do not fit. |
| Base32.Base32Decode | common/sys/2fa.c:11-41 | The bytes of the number the text stands for, spare bits dropped; -1 exactly for a bad character or too small an output. |
| Base32.Alphabet | common/sys/2fa.c:45 | The alphabet is that of RFC 4648, section 6. |
| Base32.AlphabetRead | common/sys/2fa.c:20-31 | It is read in either case, nothing else is, and blanks and dashes are passed over. |
| Base32.FooGroups | common/sys/2fa.c:43-68 | The groups and text defined meet the vector of RFC 4648, section 10, for "foo". |
| Base32.GroupsReadBack | common/sys/2fa.c:11-68 | Whatever the length, decoding the groups of some data gives that data. |
| Base32.RoundTrip | common/sys/2fa.c:11-68 | Encoding then decoding with room for both gives the data back. |
| Bcrypt64.EncodeBase64 | common/sys/bcrypt.c:1008-1038 | Six-bit groups of the data, zero-filled, in bcrypt's alphabet, zero-terminated. |
| Bcrypt64.DecodeBase64 | common/sys/bcrypt.c:965-1002 | 0 exactly when every character needed is in the alphabet, and then the bytes of the groups; -1 otherwise. |
| Bcrypt64.Alphabet | common/sys/bcrypt.c:942-943 | The alphabet is bcrypt's: a dot, a slash, letters and digits. |
| Bcrypt64.AlphabetRead | common/sys/bcrypt.c:945-960 | It is read back, and nothing else is. |
| Bcrypt64.FooGroups | common/sys/bcrypt.c:1008-1038 | The groups of "foo" and of "fo", worked out. |
| Bcrypt64.GroupsReadBack | common/sys/bcrypt.c:942-1038 | Decoding the groups of data of any length gives that data. |
| Bcrypt64.RoundTrip | common/sys/bcrypt.c:942-1038 | Encoding then decoding succeeds and gives the data back. |
| Blowfish.RndTwice | common/sys/bcrypt.c:157-162 | A round undoes itself, for any boxes and subkeys. |
| Blowfish.RoundOnQuarters | common/sys/bcrypt.c:157-162 | A round on the four bytes of the other half, highest first: an entry of each box, mixed, and the subkey. |
| Blowfish.MixExample | common/sys/bcrypt.c:157-160 | The entries mixed, worked out where sums overflow. |
| Blowfish.Encipher | common/sys/bcrypt.c:164-187 | The unrolled code computes the sixteen alternating rounds. |
| Blowfish.Decipher | common/sys/bcrypt.c:189-212 | The unrolled code takes the rounds back from the last to the first. |
| Blowfish.DecipherUndoesEncipher | common/sys/bcrypt.c:164-212 | Deciphering undoes enciphering for arbitrary S-boxes and subkeys. |
| Blowfish.BlockWritten | common/sys/bcrypt.c:688-707 | A block is two words, each with the highest byte first, taken and given. |
| Blowfish.TwoBlocksChained | common/sys/bcrypt.c:688-707 | The first block is combined with the vector, the second with the first one's result. |
| Blowfish.CbcEncrypt | common/sys/bcrypt.c:682-709 | Forward in place, each block chained to the ciphertext before it. |
| Blowfish.CbcDecrypt | common/sys/bcrypt.c:711-758 | Backward in place, each block still finds the ciphertext before it. |
| Blowfish.UnchainUndoesChain | common/sys/bcrypt.c:682-758 | For any cipher on blocks that can be undone, chaining can be. |
| Blowfish.EncryptDecrypt | common/sys/bcrypt.c:682-758 | Encrypting and decrypting in place gives the message back, for every key schedule, vector and nonempty message of whole blocks. |

## Left out

- Sgr66Rendering.RenderingPreservedIff: asks that escape commands and OSC strings are finished where colours and characters begin, and that nothing the terminal executes as SGR has the parameter 66; both are shown necessary by `SplitInCommandDiffers`, `FreezeInInputIsLost` and `PlainFreezeIsLost`. An OSC string is compared byte for byte, although the terminal keeps only its first 510 bytes.
- Terminal: cursor positions, line ends and screen contents are outside the model; what commands other than SGR do to the attribute, to a latched one and to a lead byte is arbitrary. Numbers are read as `atoi` does where a long has 64 bits and an int 32.
- Utf8Rendering.DrawnInUtf8Iff: is about characters whose table entry is 0x80 or more and takes two columns; column widths are arbitrary.
- Sgr66.ValidPair: the Big5 tables are arbitrary; the facts used about them (lead bytes 0x81 to 0xFE, trail bytes 0x40 to 0xFE without 0x7F) are assumptions of the lemmas that need them.
- ByteBuffers.ByteBuf.Append: sizes are unbounded, so the doubling of a capacity near the end of `size_t` is not modelled.
- Converters.Big5ToUtf8Shared: a source without a length is given as one at least as long as the capacity.
- Converters.ConvertRead: the write direction, `convert_write_utf8` and `convert_write_big5`, is not modelled.
- ArticleSearch.SearchByStamp: conversion of the stored record format is left out, and the search service with its answers is not part of this model.
- UserHash.UserTable.FillHash: the string hash is any function onto the buckets; printing, shared-memory set-up and the password file's mapping are left out.
- Polls.ArchivePoll: file modes, times, messages and path construction are left out; a path that is too long or a directory that cannot be made is a choice of the environment. Interrupted writes that make no progress are not repeated in the model.
- VBufs.VBuf.GeneralWrite: the number of bytes taken is told beside the result, as the code's own count is never raised.
- VBufs.VBuf.PeekAt: a negative index, which reads in front of the head, is not modelled.
- Telnet.TelnetCtx.Handler: the debugging hook compiled in by DBG_OUTRPT is left out.
- Messages.RunSafe: the receiver is quiet, so clearing of slots and of the count is not modelled; the argument checks before the claim, the delivery over the message service after it and the cutting of strings to their fields are left out. The protocol is a state machine over its atomic steps.
- BanIp.IPv4List.Lookup: gives the record's message offset; loading the file, the message texts and the text forms of addresses are left out.
- Ipc.Socket.ReadExact: polls and reads that make no progress are not repeated in the model; a time-out may strike at any of them.
- Ipc.Client.ReadPacket: a pending packet that was cut to 1024 bytes is not asked for with more room, where the copy would run past what is kept; mbbsd/io.c:419-420 asks for 1024. Frames are shorter than 2^31 bytes. Allocation of a queue entry does not fail.
- Ipc.Client.Request: connecting, reconnecting with back-off and the payload records are left out.
- Sha1.Sha1Ctx.Update: sums of words follow the order of the code; that addition modulo 2^32 commutes is not used.
- TwoFactor.Generate2fa: checking a code over a time window, random secrets and backup codes are left out.
- Base32.Base32Encode: the accumulator is kept as an unsigned 32-bit word; its sign does not matter, as at most its twelve lowest bits are used.
- Bcrypt64.EncodeBase64: key expansion, hashing and checking of passwords are left out.
- Blowfish: key schedules are arbitrary, so their expansion is not modelled.
- Option parsing, terminal screens, mail, sockets, locks, the session list and the record migrations beside the text migration are left out: they would add only easy members.
