# Five verified cores

A Dafny model of five algorithms of this repository, and proofs of what they are for.

1. **LZO1X-1** (`libsrc/libwb/minilzo.c`). The compressor and both decoders. `LzoFormat` defines the block
   format twice over: as a list of instructions with a meaning (`Apply`, `Expand`) and as bytes (`ToBytes`).
   `LzoMachine` is the decoder as a machine over its labels; the C file compiles one body twice, with and
   without the overrun tests, and `Config.safe` says which; `Config.word` is the size of an `lzo_uint`, or 0
   for registers without bounds. The main results: a decoder succeeds on *exactly* the blocks of the format and
   returns exactly their data (`LzoExactness`), the compressor writes such a block for every input
   (`LzoCompressor`), so the data comes back (`LzoRoundTrip`). `LzoCodes` and `LzoCut` say which input gives which
   of the other result codes, `LzoRegisters` when the registers do not wrap, and that the bound is exact.
   `LzoParse` says which matches the compressor takes and which block that makes. `LzoDecoder` and
   `LzoCompressor` are the routines as they run, on buffers written in place.
2. **Adler-32** (same file). Sums that are reduced once per chunk, against the per-byte definition in
   section 2.2 of RFC 1950.
3. **Aho-Corasick** (`libsrc/rqlib/ac.cpp`, `ac.h`). `AhoTrie` says what nodes, failure links and ids mean,
   `AhoBfs` what breadth-first order gives, `AhoScan` what a scan reports, `AhoIds` which ids a list of
   operations leaves in the trie; `AhoCorasick` is the matcher, a class that grows and overwrites its node
   vector, and `AhoIncremental` replays operations on it.
4. **UTF-8** (`libsrc/rqlib/utf8.c`). `Utf8Format` has the encoding and the grammar of section 4 of RFC 3629,
   `Utf8Convert` the conversions, `Utf8Walk` the moves by continuation bytes, `Utf8Escape` and `Utf8Escaping`
   the escape printer and parser; `Utf8EscapeForms` lists every escape that is read or printed in literal bytes.
5. **Longest block of two characters** (`algorithms/`). `TwoCharBlocks` has both algorithms.

`dafny verify dfyconfig.toml` checks everything.

## How C is modelled

- Input buffers that are only read are sequences, buffers that are written are arrays, pointers are offsets.
  `|`, shifts and masks are `Or` and integer division and remainder, with 32-bit wrap-around written out.
- **LZO.** Both hash functions are arbitrary functions into the table, and the dictionary starts with
  arbitrary integers, since `wrkmem` is never cleared and every candidate is checked again (lines 2499-2502).
  `NEED_IP` compares unsigned, so it passes when `ip` is already past the end: offset bytes are fetched
  unguarded, up to six bytes past the block. The model makes those `GUARD` bytes explicit and proves no read
  goes further; a block of the format is decoded without any of them. A read or a copy the C code may not make,
  also one beyond the capacity the safe decoder was given, is the result `Undefined`. The safe decoder reads its
  first byte before any test, so a block has at least one byte. Debug assertions are compiled out.
- **LZO registers.** The run-length `t` and the amounts `t + 2`, `t + 3` and `t + 4` that NEED_OP and NEED_IP
  get live in an `lzo_uint`. The machine reduces them modulo `word`, and a counter that has wrapped to zero
  counts down through the whole register. Nothing in the source bounds the run of zero bytes that feeds `t`, so
  with 32 bits a block of 16 megabytes can wrap the tests and write past its buffer: `OverflowsTwoBytes`. What a
  caller can check is `LengthFits`, 255 times the length of the block below the word size plus 236:
  `LengthFitsIsExact` proves that the safe decoder makes no forbidden access on any block of that length if and
  only if this holds. The exactness theorems carry the same condition; blocks of the format, and so the round
  trip, need only that the lengths themselves fit (`BlocksDecode`, `RoundTrip`). The compressor's counters stay
  below n + n / 16 + 4.
- **Aho-Corasick.** A C string is its characters up to the NUL. `Node()` is value-initialised, so a new
  node's `fail_off` is 0 until it is built. The children of a node are visited in an arbitrary order instead
  of key order. `labels` (the string each node stands for) and `patterns` are ghost.
- **UTF-8.** A C string is its bytes up to the NUL, which `At` supplies. `char` is signed and `long` has
  64 bits. `snprintf` and `strtol` are modelled for the formats used. `u8_toucs` looks at the byte at its
  source's end before it decides to stop, also when that is one past a sized source; the byte does not matter.

Where the code does less than its comments suggest, the code is followed:

- `\x` is printed without padding, so a control character in {1..6, 14, 15} directly before a hex digit does
  not survive `u8_escape` and `u8_unescape`. `ReadsMerged` says what comes back instead and
  `EscapeRoundTrip` that the text comes back if and only if it has no such pair.
- `u8_unescape` drops every raw byte from 0x80 on (it becomes a negative `char`): `PlainTextKeepsAscii`,
  `LosesAccent`. A text without backslashes comes back if and only if it is ASCII: `UnescapePlainText`.
- Re-inserting a string under another id leaves the old id in nodes that inherited it: `StaleId` is such a
  case. `ReplayIsExactIff` says, of the operations alone, exactly when every text is still scanned exactly.
- The safe decoder is not safe for blocks that are too long for its registers, as said above.
- A block cut short does not always give LZO_E_EOF_NOT_FOUND or LZO_E_INPUT_OVERRUN: a cut in the offset bytes of a
  match, which are fetched unguarded, lets whatever follows pass for a distance. `OneByteIsNotEnough` is an input
  that gives LZO_E_LOOKBEHIND_OVERRUN, and `ReadAheadIsExact` the exact condition: the two bytes behind the cut are
  those of the block.
- A lead byte of a five- or six-byte form is not passed by `u8_toucs`: `LongLeadsRepeat`.

## Model

| member | source | states |
|---|---|---|
| LzoFormat.CopyRepeats | libsrc/libwb/minilzo.c:3267-3269 | a byte-by-byte copy keeps what was there and every byte it adds equals the one `off` before it, overlap included |
| LzoFormat.RepeatsIsCopy | libsrc/libwb/minilzo.c:3246-3270 | conversely, any buffer that repeats at that distance is the byte-by-byte copy, however it was filled |
| LzoFormat.AppendExpands | libsrc/libwb/minilzo.c:2761-2766 | an instruction appended where its context allows it extends the data by its meaning |
| LzoFormat.AppendBytes | libsrc/libwb/minilzo.c:2761-2766 | and the bytes by its bytes |
| LzoCopy.Copy4Back | libsrc/libwb/minilzo.c:3256-3261 | one `COPY4` at a distance of at least four repeats the four bytes at that distance |
| LzoCopy.CopyBackwards | libsrc/libwb/minilzo.c:3262 | the last bytes one by one continue the repetition |
| LzoCopy.CopyMatchBytes | libsrc/libwb/minilzo.c:3267-3269 | the label `copy_match` writes the overlapping copy and nothing after it |
| LzoCopy.CopyMatchWide | libsrc/libwb/minilzo.c:3253-3263 | four bytes at a time gives exactly the byte-by-byte copy for every distance from 4 and length from 8 |
| LzoCopy.CopyRun | libsrc/libwb/minilzo.c:3008-3027 | the `COPY4` literal path writes exactly the t + 3 literals |
| LzoCopy.CopyLiterals | libsrc/libwb/minilzo.c:2987 | single literals, nothing else touched |
| LzoSafety.StepInBounds | libsrc/libwb/minilzo.c:3489-3791 | while registers do not wrap every label keeps the position bounds; a match is only copied from output already written |
| LzoSafety.IdealStaysInBounds | libsrc/libwb/minilzo.c:3358-3385 | so with unbounded registers the safe decoder makes no forbidden access on any non-empty input with six readable bytes after it |
| LzoSafety.OutputFits | libsrc/libwb/minilzo.c:3370-3377 | in any registers, what the safe decoder has written when it stops is within its capacity |
| LzoSafety.RunGrows | libsrc/libwb/minilzo.c:2991-3293 | output already written is neither taken back nor changed |
| LzoSafety.SafeRefinesPlain | libsrc/libwb/minilzo.c:2889-2913 | whenever the safe decoder returns LZO_E_OK the plain one returns LZO_E_OK with the same output |
| LzoRegisters.LengthIsBounded | libsrc/libwb/minilzo.c:3494-3504 | a run-length grows by at most 255 for each byte read |
| LzoRegisters.LengthEndsTheSame | libsrc/libwb/minilzo.c:3494-3504 | wrapped or not, a run-length ends at the same byte of the block |
| LzoRegisters.ShortBlockKeepsLength | libsrc/libwb/minilzo.c:3494-3504 | in a short enough stretch of the block no run-length wraps |
| LzoRegisters.GoodCallsFit | libsrc/libwb/minilzo.c:2931-3304 | a call that succeeds with unbounded registers gives the same in any registers that hold its lengths and its output |
| LzoRegisters.ShortBlockSuccess | libsrc/libwb/minilzo.c:2931-3304 | for a block within the length bound a success in registers is a success with unbounded ones |
| LzoRegisters.SafeRegistersSuffice | libsrc/libwb/minilzo.c:3430-3821 | on every block within the length bound the safe decoder in registers is the one with unbounded registers, errors included |
| LzoRegisters.SafeStaysInBounds | libsrc/libwb/minilzo.c:3358-3385 | on every non-empty block within the length bound, with six readable bytes after it, the safe decoder makes no forbidden read or copy and writes at most its capacity |
| LzoRegisters.LengthFitsIsExact | libsrc/libwb/minilzo.c:3494-3506 | for every word size and length: no block of that length makes the safe decoder leave its buffers if and only if the length is within the bound |
| LzoRegisters.OverflowsTwoBytes | libsrc/libwb/minilzo.c:3494-3514 | with 32 bits, a block of 16843190 bytes passes both tests and overflows a two-byte buffer, where unbounded registers report an output overrun |
| LzoReading.ReadsMatch | libsrc/libwb/minilzo.c:3070-3270 | the bytes of every M1, M2, M3 and M4 match with any literal count decode to the same length and distance, never to the end code, even where their offset bytes are past the block |
| LzoReading.ReadsOffset | libsrc/libwb/minilzo.c:3157-3160 | offset bytes carry 14 bits of the distance, and the literal count beside them |
| LzoReading.ReadsInstr | libsrc/libwb/minilzo.c:3489-3791 | on the bytes of any instruction, in a context that allows it, the decoder does what the instruction means and stands at the next one |
| LzoReading.ReadsEof | libsrc/libwb/minilzo.c:3696-3703 | at the end code, with the input used up, it stops with LZO_E_OK |
| LzoReading.ReadsPart | libsrc/libwb/minilzo.c:3489-3791 | on the bytes of a program the decoder comes to what follows them with the program's data |
| LzoReading.ReadsProg | libsrc/libwb/minilzo.c:3489-3803 | on the bytes of a whole program and its end code the decoder ends with the program's data |
| LzoParsing.ParsesInstr | libsrc/libwb/minilzo.c:2991-3293 | conversely: a decoder that will succeed reads an instruction of the format or the end code next, from every context |
| LzoParsing.ParsesProg | libsrc/libwb/minilzo.c:2991-3304 | so what it reads to the end is a whole well-formed program that expands to its output |
| LzoExactness.StreamsDecode | libsrc/libwb/minilzo.c:3474-3821 | with unbounded registers every valid stream decodes to its data |
| LzoExactness.OnlyStreamsDecode | libsrc/libwb/minilzo.c:2931-3304 | with unbounded registers LZO_E_OK is returned only for a valid stream that fills the input exactly, with its data as output |
| LzoExactness.BlocksDecode | libsrc/libwb/minilzo.c:2931-3304 | either decoder, in any registers that hold the lengths, turns a block into its data, given just enough room and whatever follows the block |
| LzoExactness.OnlyBlocksDecode | libsrc/libwb/minilzo.c:2931-3304 | within the length bound LZO_E_OK is returned for blocks of the format only |
| LzoExactness.SafeDecoderIsExact | libsrc/libwb/minilzo.c:3430-3821 | within the length bound the safe decoder gives LZO_E_OK and `data` if and only if the block stands for `data` and `data` fits the capacity |
| LzoExactness.PlainDecoderIsExact | libsrc/libwb/minilzo.c:2931-3304 | within the length bound the plain decoder gives LZO_E_OK and `data` if and only if the block stands for `data` |
| LzoExactness.BlocksAreUnambiguous | libsrc/libwb/minilzo.c:2931-3304 | a block stands for one piece of data only |
| LzoCodes.RunLoosens | libsrc/libwb/minilzo.c:3798-3802 | a run that ends at an end code ends there with the same output for any longer block, and in the plain decoder for any length at all; only the code changes |
| LzoCodes.BlockEndsAt | libsrc/libwb/minilzo.c:3298-3304 | a block with bytes after it that are counted in gives LZO_E_INPUT_NOT_CONSUMED and its data, from either decoder; one that goes on past the length given, LZO_E_INPUT_OVERRUN and its data from the plain one |
| LzoCodes.StopsAtBlock | libsrc/libwb/minilzo.c:3298-3304 | conversely the bytes up to an end code that stops a decoder are a block for its output |
| LzoCodes.NotConsumedIsExact | libsrc/libwb/minilzo.c:3796-3802 | LZO_E_INPUT_NOT_CONSUMED and `data` if and only if a block for `data` ends before the input does, and in the safe decoder `data` fits |
| LzoCodes.PlainOverrunIsExact | libsrc/libwb/minilzo.c:3298-3309 | LZO_E_INPUT_OVERRUN and `data` from the plain decoder if and only if a block for `data` ends after the input does |
| LzoCodes.OneByteOff | libsrc/libwb/minilzo.c:3298-3304 | the three bytes of the empty input with one more counted in, and with one less |
| LzoCodes.DataDoesNotFit | libsrc/libwb/minilzo.c:3370-3375 | a block whose data exceeds the capacity gives LZO_E_OUTPUT_OVERRUN; what has been written is the beginning of the data |
| LzoCodes.MatchLooksTooFar | libsrc/libwb/minilzo.c:3378-3384 | after any well-formed beginning, a match of any encoding with a distance beyond the data so far gives LZO_E_LOOKBEHIND_OVERRUN and that data |
| LzoCodes.InputEndsInLead | libsrc/libwb/minilzo.c:3474-3484 | an input that ends in or right after the announced literals gives LZO_E_INPUT_OVERRUN and nothing else |
| LzoCodes.InputEndsInLength | libsrc/libwb/minilzo.c:3494-3504 | one that ends inside the length of a run, a match or an end code gives LZO_E_INPUT_OVERRUN and the data before it |
| LzoCodes.InputEndsInRun | libsrc/libwb/minilzo.c:3505 | an input that ends in or right after the literals of a run gives LZO_E_INPUT_OVERRUN and none of them |
| LzoCodes.InputEndsAtMatch | libsrc/libwb/minilzo.c:3744-3796 | an input that ends at a match: LZO_E_EOF_NOT_FOUND in its offset bytes, at the next instruction or one byte into it; LZO_E_INPUT_OVERRUN among its literals |
| LzoCut.RunCuts | libsrc/libwb/minilzo.c:3489-3808 | a run on a cut block does what it does on the whole one until it notices |
| LzoCut.CutBlocksAreNoticed | libsrc/libwb/minilzo.c:3489-3808 | a block cut anywhere, whose next two bytes follow the cut, gives LZO_E_EOF_NOT_FOUND or LZO_E_INPUT_OVERRUN and no other code |
| LzoCut.ReadAheadIsExact | libsrc/libwb/minilzo.c:3684-3698 | that holds for all blocks and cuts if and only if at least two bytes behind the cut are those of the block |
| LzoCut.OneByteIsNotEnough | libsrc/libwb/minilzo.c:3657-3660 | with one, a block of eleven bytes cut after six gives LZO_E_LOOKBEHIND_OVERRUN |
| LzoDecoder.ReadRunLength | libsrc/libwb/minilzo.c:2998-3005 | the zero-byte loop behind NEED_IP, in a register, computes the machine's run-length or its error |
| LzoDecoder.DoLiterals | libsrc/libwb/minilzo.c:3007-3038 | a literal run in place is one step of the machine, error cases included |
| LzoDecoder.DoCopy | libsrc/libwb/minilzo.c:3246-3270 | the tests and the wide or narrow copy in place are one step of the machine |
| LzoDecoder.DoLoopTop | libsrc/libwb/minilzo.c:2991-3038 | the outer loop's head in place is one step of the machine |
| LzoDecoder.DoFirstLiteralRun | libsrc/libwb/minilzo.c:3040-3067 | likewise for `first_literal_run` |
| LzoDecoder.DoLongMatch | libsrc/libwb/minilzo.c:3124-3211 | likewise for M3 and M4 matches and the end code |
| LzoDecoder.DoMatch | libsrc/libwb/minilzo.c:3070-3237 | likewise for `match` |
| LzoDecoder.DoMatchNext | libsrc/libwb/minilzo.c:3283-3292 | likewise for `match_next` and the inner loop's test |
| LzoDecoder.DoStep | libsrc/libwb/minilzo.c:2991-3293 | every label in place is one step of the machine |
| LzoDecoder.DoStart | libsrc/libwb/minilzo.c:2978-2989 | the first byte's announcement in place is the machine's start |
| LzoDecoder.GuardedIsCallable | libsrc/libwb/minilzo.c:3358-3385 | every non-empty block within the length bound, with six readable bytes after it, is such a call of the safe decoder |
| LzoDecoder.Decompress | libsrc/libwb/minilzo.c:2931-3323 | both decoders in place, for every call that makes no forbidden access: result code, length and bytes are the machine's, the rest of the buffer is unchanged, and they terminate |
| LzoWriting.CountIsPatched | libsrc/libwb/minilzo.c:2641-2645 | every emitted match leaves the low two bits of its second-to-last byte clear, and adding a count there gives the match with that many literals |
| LzoParse.VisitsAreUnique | libsrc/libwb/minilzo.c:2556-2771 | input, dictionary and hash determine which positions are looked up, which matches are taken there and how long they are |
| LzoParse.CompressionIsDetermined | libsrc/libwb/minilzo.c:2773-2821 | so they determine the block |
| LzoWriting.PickIsShortest | libsrc/libwb/minilzo.c:2720-2759 | of the encodings the compressor uses, the one it picks for a length and distance is the shortest |
| LzoWriting.MatchSaves | libsrc/libwb/minilzo.c:2562-2574 | every match the compressor takes is encodable and at least one byte shorter than what it stands for |
| LzoWriting.RunHeaderSize | libsrc/libwb/minilzo.c:2646-2660 | the header of n literals takes at most 1 + n / 16 bytes |
| LzoWriting.Close | libsrc/libwb/minilzo.c:2637-2662 | the pending match with up to three literals patched in extends the program written so far |
| LzoWriting.AddRun | libsrc/libwb/minilzo.c:2646-2662 | so does a literal run with its own header, first in the block or after a match |
| LzoCompressor.FindMatch | libsrc/libwb/minilzo.c:2560-2602 | for any dictionary content: the second index is used if and only if the first candidate is within 49151 bytes but neither within 2048 nor equal in the fourth byte; the candidate is taken if and only if it is within 49151 bytes, within 2048 or equal in the fourth byte, and equal in the first three |
| LzoCompressor.OneMoreVisit | libsrc/libwb/minilzo.c:2560-2634 | a position looked up so, and entered at the index used, continues the search and the table it leaves |
| LzoCompressor.MatchLength | libsrc/libwb/minilzo.c:2664-2717 | the length of the longest agreement from both positions, up to the end of the input |
| LzoCompressor.WriteExt | libsrc/libwb/minilzo.c:2745-2752 | appends the 255-run extension of n |
| LzoCompressor.WriteHead | libsrc/libwb/minilzo.c:2721-2753 | appends marker and length of an M3 or M4 match, in the marker byte or with an extension |
| LzoCompressor.WriteOffset | libsrc/libwb/minilzo.c:2756-2758 | appends the offset bytes with a literal count of zero |
| LzoCompressor.WriteMatch | libsrc/libwb/minilzo.c:2678-2759 | appends the bytes of the M2, M3 or M4 match |
| LzoCompressor.PatchCount | libsrc/libwb/minilzo.c:2641-2645 | `op[-2] \|= t` turns the bytes written into the bytes wanted |
| LzoCompressor.WriteRunHeader | libsrc/libwb/minilzo.c:2646-2660 | appends the header of a run of four or more literals |
| LzoCompressor.WriteLiterals | libsrc/libwb/minilzo.c:2637-2662 | after the literals the output is a program for everything up to `ip`, and has grown by them and their header |
| LzoCompressor.PaysItsWay | libsrc/libwb/minilzo.c:2637-2758 | the byte a match saves pays for the literal header before it |
| LzoCompressor.EmitMatch | libsrc/libwb/minilzo.c:2635-2764 | literals and match keep the main invariant: the program of the matches taken so far, within the size bound |
| LzoCompressor.DoCompress | libsrc/libwb/minilzo.c:2536-2771 | for every input longer than 13 bytes: from the fifth byte on, each position is looked up in the table that the earlier ones left; a match is taken exactly when the candidate qualifies, at its distance and as long as the agreement goes; the next position is the one after the literal or the match, until 13 bytes from the end; the output is the program of these matches, within the size bound |
| LzoCompressor.Finish | libsrc/libwb/minilzo.c:2795-2817 | an open program for the whole input and the end code are a block for it |
| LzoCompressor.FinishLead | libsrc/libwb/minilzo.c:2793-2817 | so are up to 238 announced literals, or nothing, and the end code |
| LzoCompressor.WriteEof | libsrc/libwb/minilzo.c:2815-2817 | appends the end code |
| LzoCompressor.Compress | libsrc/libwb/minilzo.c:2773-2821 | for every input, dictionary and hash: the output is a block for the input, of at most n + n / 16 + 4 bytes, and it is the block of the matches that this search takes; the dictionary ends as the search leaves it |
| LzoRoundTrip.RoundTrip | libsrc/libwb/minilzo.c:2773-2821 | decompressing what was compressed gives LZO_E_OK, the length and the bytes of the input, for both decoders, every word size that holds the lengths, and whatever follows the block |
| Adler32.Do16IsSixteen | libsrc/libwb/minilzo.c:1998-2002 | the unrolled macro is sixteen single steps |
| Adler32.NoWrap | libsrc/libwb/minilzo.c:2014-2029 | within 5552 bytes no 32-bit sum wraps, from any starting checksum |
| Adler32.OneMoreWraps | libsrc/libwb/minilzo.c:1996 | 5553 bytes can wrap, so the constant is the largest possible |
| Adler32.ReduceOnce | libsrc/libwb/minilzo.c:2030-2031 | one reduction at the end of a chunk gives what a reduction after every byte gives |
| Adler32.ChunkIsFold | libsrc/libwb/minilzo.c:2014-2032 | a chunk in 32-bit registers, reduced, is the definition on its bytes |
| Adler32.SumChunk | libsrc/libwb/minilzo.c:2018-2029 | both loops together take every byte of the chunk once |
| Adler32.ClosedForm | libsrc/libwb/minilzo.c:2004-2034 | from any 32-bit value: the low half is its low half and the bytes, the high half its high half, its low half once for each byte and the k-th of n bytes n - k times, modulo 65521 |
| Adler32.ClosedFormFromOne | libsrc/libwb/minilzo.c:2004-2034 | from 1, and for the empty buffer too: 1 plus the bytes, and n plus the weighted bytes |
| Adler32.ChecksumConcat | libsrc/libwb/minilzo.c:2004-2034 | chaining calls over the parts gives the checksum of the whole |
| Adler32.Adler | libsrc/libwb/minilzo.c:2004-2034 | equals the definition in RFC 1950 for every buffer and start; 1 for NULL |
| AhoTrie.SearchSteps | libsrc/rqlib/ac.cpp:69-71 | following a failure link skips no suffix that has the edge sought |
| AhoTrie.SearchFinds | libsrc/rqlib/ac.cpp:75 | the edge found leads to the longest suffix of the text read that is in the trie |
| AhoTrie.SearchFails | libsrc/rqlib/ac.cpp:72-74 | without an edge even at the root, that suffix is empty |
| AhoTrie.QuietFromFail | libsrc/rqlib/ac.cpp:48-50 | a string that is no pattern ends with one only if its failure node's string does |
| AhoBfs.ShallowIsQueued | libsrc/rqlib/ac.cpp:33-35 | every node no deeper than the one taken from the queue has been queued |
| AhoBfs.Pushes | libsrc/rqlib/ac.cpp:60 | queueing a child keeps the queue distinct, ordered by depth and complete |
| AhoBfs.Pops | libsrc/rqlib/ac.cpp:33-35 | so does going on to the next node |
| AhoBfs.AllQueued | libsrc/rqlib/ac.cpp:33-62 | when the queue runs empty every node has been in it |
| AhoScan.ReportSteps | libsrc/rqlib/ac.cpp:76-79 | one step of the report walk leaves out no suffix of the text in the trie |
| AhoScan.ReportEnds | libsrc/rqlib/ac.cpp:76-79 | stopping at the first node without an id, or at the root, loses nothing |
| AhoScan.ReportsAreExact | libsrc/rqlib/ac.cpp:65-82 | in a built automaton with sound ids the reports at an index are the patterns that end there |
| AhoScan.ExactIffIdsOccur | libsrc/rqlib/ac.cpp:26-60 | a built automaton scans every text exactly if and only if each node's id is that of a pattern inside the node's string |
| AhoScan.MatchIdsEnd | libsrc/rqlib/ac.cpp:65-82 | the ids of patterns that occur are those that end at some index |
| AhoScan.KeptFirst | libsrc/rqlib/ac.h:13-19 | a set whose comparator looks at ids only keeps the first index of each |
| AhoCorasick.AhoCorasick.constructor | libsrc/rqlib/ac.h:24-26 | a new matcher has the root only, no patterns, and counts as built |
| AhoCorasick.AhoCorasick.Clear | libsrc/rqlib/ac.cpp:6-12 | back to that state |
| AhoCorasick.AhoCorasick.FollowOrGrow | libsrc/rqlib/ac.cpp:19-24 | the edge is there afterwards, and the trie still has one node for each string |
| AhoCorasick.AhoCorasick.Mark | libsrc/rqlib/ac.cpp:26 | sets one node's id, which gives its string that id, or none for -1 |
| AhoCorasick.AhoCorasick.Insert | libsrc/rqlib/ac.cpp:15-27 | adds exactly the prefixes of the string, sets its node's id and no other, keeps older ids sound unless the string had another id |
| AhoCorasick.AhoCorasick.FindLink | libsrc/rqlib/ac.cpp:43-58 | the inner search ends, at the node of the longest proper suffix of the child in the trie |
| AhoCorasick.AhoCorasick.SetLink | libsrc/rqlib/ac.cpp:47-50 | stores the link; only a node without an id inherits one; nothing else changes |
| AhoCorasick.AhoCorasick.LinkChild | libsrc/rqlib/ac.cpp:40-59 | when all shallower nodes are done, so is the child afterwards: link at the longest proper suffix, an id if a pattern ends there; ids stay sound |
| AhoCorasick.AhoCorasick.LinkChildren | libsrc/rqlib/ac.cpp:36-61 | all children of a node get their links and are queued, in any order |
| AhoCorasick.AhoCorasick.BuildAutomata | libsrc/rqlib/ac.cpp:29-63 | terminates, takes every node from the queue exactly once by depth, leaves every failure link at the longest proper suffix in the trie and an id wherever a pattern ends, changes no edge and no id that was set; a string without an id gets that of its longest suffix that had one |
| AhoCorasick.AhoCorasick.Fall | libsrc/rqlib/ac.cpp:69-71 | each hop costs a letter of depth; no suffix with the edge is passed |
| AhoCorasick.AhoCorasick.Advance | libsrc/rqlib/ac.cpp:68-75 | after a letter the node is that of the longest suffix of the text read that is in the trie |
| AhoCorasick.AhoCorasick.Report | libsrc/rqlib/ac.cpp:76-79 | the walk reports what the trie says ends here |
| AhoCorasick.AhoCorasick.GetMatch | libsrc/rqlib/ac.cpp:65-82 | built and sound: exactly the ids of the non-empty patterns that occur in the text; sound only: no others; at most as many failure hops as letters |
| AhoCorasick.AhoCorasick.ReportOff | libsrc/rqlib/ac.cpp:96-99 | the walk inserts an id with the index only if it is not there yet |
| AhoCorasick.AhoCorasick.GetMatchOff | libsrc/rqlib/ac.cpp:84-102 | the same ids, each once, with the smallest index at which a pattern with that id ends |
| AhoIds.PatternsKeepIds | libsrc/rqlib/ac.cpp:15-63 | after any operations every pattern is in the trie and holds its own id |
| AhoIds.ReportsAreScan | libsrc/rqlib/ac.cpp:65-82 | the walk over nodes reports what the strings in the trie and their ids say |
| AhoIds.ExactIffInside | libsrc/rqlib/ac.cpp:6-82 | operations that end in a build make every text scan exactly if and only if each string in the trie holds an id of a pattern inside it, or none |
| AhoIncremental.Apply | libsrc/rqlib/ac.cpp:6-63 | each operation keeps the matcher valid, sound while no string got a second id, and its ids those that the operations determine |
| AhoIncremental.StableIdsCarried | libsrc/rqlib/ac.cpp:26-60 | while no string is given a second id, each id in the trie is that of a pattern that ends its string |
| AhoIncremental.Replay | libsrc/rqlib/ac.cpp:15-82 | any clears, inserts and builds that end in a build scan as the operations alone determine; exactly, if since the last clear no string was given a second id |
| AhoIncremental.ReplayIsExactIff | libsrc/rqlib/ac.cpp:15-82 | of the operations alone: every text is scanned exactly if and only if no string is left with the id of a pattern that is not inside it, and that holds if no string got a second id |
| AhoIncremental.StaleId | libsrc/rqlib/ac.cpp:26-50 | with a changed id it need not: an id no pattern has any more is reported |
| Utf8Format.EncodedChar | libsrc/rqlib/utf8.c:26-40 | the offsets undo the marker bits, the table gives the length, and only the first byte is no continuation byte |
| Utf8Format.RfcCharIsEnc | libsrc/rqlib/utf8.c:144-169 | every character of the grammar in RFC 3629 is the encoding of the scalar value it decodes to |
| Utf8Format.WellFormedIff | libsrc/rqlib/utf8.c:48-57 | well formed under that grammar means: the encoding of some scalar values |
| Utf8Convert.ReadChar | libsrc/rqlib/utf8.c:75-83 | the fall-through switch computes the 32-bit value, also for leads it does not handle |
| Utf8Convert.StopsAt | libsrc/rqlib/utf8.c:66-74 | the loop ends at the NUL, or before a character that does not end inside a sized source |
| Utf8Convert.UcsFromEnc | libsrc/rqlib/utf8.c:58-89 | from any character on, the conversion of an encoding gives back the characters, as many as there is room for |
| Utf8Convert.SourceEndsAtSize | libsrc/rqlib/utf8.c:61-74 | the bytes of a longer buffer behind a sized source do not matter |
| Utf8Convert.SomeAreWhole | libsrc/rqlib/utf8.c:71-74 | of the characters of a text some number is the largest that ends inside the source |
| Utf8Convert.UcsFromPart | libsrc/rqlib/utf8.c:58-89 | a source that is any number of bytes of a text gives the characters that end inside it, as many as there is room for; one that is cut is left out |
| Utf8Convert.LongLeadsRepeat | libsrc/rqlib/utf8.c:75-84 | at a lead byte of a five- or six-byte form the conversion writes one constant until the room is used up |
| Utf8Convert.ToUcs | libsrc/rqlib/utf8.c:58-89 | writes the characters and a zero, nothing else: for a NUL-terminated text all of them or as many as there is room for; for a sized source what its bytes alone determine, on a text its whole characters |
| Utf8Convert.PutChar | libsrc/rqlib/utf8.c:111-136 | the shifted and or-ed bytes are the encoding; nothing for numbers beyond the last plane |
| Utf8Convert.WcToUtf8 | libsrc/rqlib/utf8.c:144-169 | the same for a single character |
| Utf8Convert.ToUtf8 | libsrc/rqlib/utf8.c:103-142 | writes exactly the encoding of the longest prefix of characters that fits whole, and a NUL only after all of them |
| Utf8Convert.DecodesEncoded | libsrc/rqlib/utf8.c:58-142 | decoding what was encoded gives back all code points below 0x110000 |
| Utf8Convert.EncodesDecoded | libsrc/rqlib/utf8.c:58-142 | encoding what was decoded gives back every text well formed under RFC 3629 |
| Utf8Convert.CodePointsRoundTrip | libsrc/rqlib/utf8.c:58-142 | the first of these for the routines, in buffers without a byte to spare |
| Utf8Convert.TextRoundTrip | libsrc/rqlib/utf8.c:58-142 | the second for the routines, in buffers of the documented size |
| Utf8Walk.ScanAgreesWithTable | libsrc/rqlib/utf8.c:66-83 | on a text the continuation-byte scan and the lead-byte table find the same boundary and the same value |
| Utf8Walk.NextIsNextBound | libsrc/rqlib/utf8.c:210-223 | the scan from a character stops at the next one, and nowhere else |
| Utf8Walk.IncIsNextBound | libsrc/rqlib/utf8.c:225-229 | so does `u8_inc` |
| Utf8Walk.DecIsPreviousBound | libsrc/rqlib/utf8.c:231-235 | `u8_dec` stops at the one before |
| Utf8Walk.DecUndoesInc | libsrc/rqlib/utf8.c:225-235 | together they lead back |
| Utf8Walk.NextChar | libsrc/rqlib/utf8.c:210-223 | reads up to the next byte that starts a character and combines the bytes in 32 bits |
| Utf8Walk.Inc | libsrc/rqlib/utf8.c:225-229 | to the next such byte, four bytes on at the most |
| Utf8Walk.Dec | libsrc/rqlib/utf8.c:231-235 | to the previous one, four bytes back at the most |
| Utf8Walk.Offset | libsrc/rqlib/utf8.c:172-182 | where the character with that number starts; the end for larger numbers |
| Utf8Walk.CharNum | libsrc/rqlib/utf8.c:185-195 | how many characters start before the offset; on boundaries the inverse of `Offset` |
| Utf8Escape.ReadsOne | libsrc/rqlib/utf8.c:251-361 | a printed character reads back as itself, unless it is a single hex digit with another after it |
| Utf8Escape.ReadsMerged | libsrc/rqlib/utf8.c:251-381 | any printed text reads back with exactly such pairs merged into one character |
| Utf8Escape.SameIffNoPairs | libsrc/rqlib/utf8.c:353-354 | that is the text itself if and only if no byte in {1..6, 14, 15} stands directly before a hex digit |
| Utf8EscapeForms.NumeralIsNumber | libsrc/rqlib/utf8.c:272-303 | what is read of octal or hex digits, in either case, is the number they write |
| Utf8EscapeForms.DigitsAreNumeral | libsrc/rqlib/utf8.c:237-247 | every run of digits writes a number |
| Utf8EscapeForms.ReadsPlainByte | libsrc/rqlib/utf8.c:319-322 | a byte other than a backslash reads as itself below 0x80, else as that byte sign-extended to 32 bits |
| Utf8EscapeForms.ReadsLetter | libsrc/rqlib/utf8.c:258-271 | the seven letters read as the characters 7 to 13 |
| Utf8EscapeForms.ReadsOctal | libsrc/rqlib/utf8.c:272-278 | one to three octal digits read as their number in base 8, fewer than three only where no octal digit follows |
| Utf8EscapeForms.ReadsThreeOctal | libsrc/rqlib/utf8.c:272-278 | every number below 512 reads back from its three octal digits, whatever follows |
| Utf8EscapeForms.ReadsHexNumeral | libsrc/rqlib/utf8.c:279-299 | up to two, four or eight hex digits after x, u or U read as their number in base 16, fewer only where no hex digit follows |
| Utf8EscapeForms.ReadsHexLetter | libsrc/rqlib/utf8.c:279-299 | without a digit the letter reads as itself |
| Utf8EscapeForms.ReadsOther | libsrc/rqlib/utf8.c:257 | so does any other byte after a backslash, sign-extended |
| Utf8EscapeForms.PrintIsForms | libsrc/rqlib/utf8.c:335-381 | what is printed is, and nothing else is: for each character its letter, or an x with one upper-case hex digit below 16 and two up to 31 and for 127, a u with four, a U with eight from 0x10000 on, or the character itself; a quote mark with a backslash if and only if they are escaped |
| Utf8EscapeForms.PrintsAscii | libsrc/rqlib/utf8.c:335-381 | every byte printed is printable ASCII |
| Utf8EscapeForms.PrintsAsItselfIffPlain | libsrc/rqlib/utf8.c:335-381 | a text prints as itself if and only if it is printable ASCII without a backslash and, where they are escaped, without a quote mark |
| Utf8EscapeForms.QuotesAreEscapedIff | libsrc/rqlib/utf8.c:369-372 | the number of backslashes directly before a quote mark in the print is odd where quote marks are escaped, and even where they are not |
| Utf8Escape.EscapeIsShort | libsrc/rqlib/utf8.c:335-361 | printing takes at most four bytes for each byte |
| Utf8Escape.PlainTextKeepsAscii | libsrc/rqlib/utf8.c:319-322 | reading a text without backslashes keeps its ASCII bytes and loses all others |
| Utf8Escape.PlainTextSurvivesIffAscii | libsrc/rqlib/utf8.c:319-322 | so the characters read encode to the text itself if and only if all its bytes are below 0x80 |
| Utf8Escape.LosesAccent | libsrc/rqlib/utf8.c:319-322 | the two bytes of U+00E9 are read as nothing |
| Utf8Escaping.TakeDigits | libsrc/rqlib/utf8.c:274-282 | collects the leading digits, no more than allowed |
| Utf8Escaping.StrToL | libsrc/rqlib/utf8.c:277-298 | the digits' value in base 8 or 16 |
| Utf8Escaping.ReadHexEscape | libsrc/rqlib/utf8.c:279-299 | up to two, four or eight hex digits; the letter itself without any |
| Utf8Escaping.ReadEscapeSequence | libsrc/rqlib/utf8.c:251-303 | value and length of every form of escape |
| Utf8Escaping.ReadNext | libsrc/rqlib/utf8.c:315-323 | one character, escaped or not, and the rest of the text |
| Utf8Escaping.CopyInto | libsrc/rqlib/utf8.c:327 | `memcpy` of the encoding into the buffer |
| Utf8Escaping.Snprintf | libsrc/rqlib/utf8.c:335-361 | as much of the text as fits before a NUL, and its full length |
| Utf8Escaping.Unescape | libsrc/rqlib/utf8.c:308-333 | writes the encoding of the longest prefix of the characters read that fits whole, then a NUL if there is room |
| Utf8Escaping.UnescapePlainText | libsrc/rqlib/utf8.c:308-333 | a text without backslashes, in a large enough buffer, comes back if and only if it is ASCII |
| Utf8Escaping.EscapeWchar | libsrc/rqlib/utf8.c:335-361 | prints one character, cut off by a NUL where the buffer ends |
| Utf8Escaping.PrintNext | libsrc/rqlib/utf8.c:368-374 | one turn of the printing loop prints the next character and moves to the one after it |
| Utf8Escaping.Escape | libsrc/rqlib/utf8.c:363-381 | the buffer holds the whole print, or as much of it as fits, and a NUL; nothing after that is changed; the result is the length of what was printed |
| Utf8Escaping.EscapeRoundTrip | libsrc/rqlib/utf8.c:308-381 | for well-formed NUL-free text, quotes escaped or not: it comes back if and only if it has no such pair |
| TwoCharBlocks.ThirdCharacter | algorithms/find_two_substring.cc:28-38 | at a third character the longest window is the last run and that character |
| TwoCharBlocks.TakeCharacter | algorithms/find_two_substring.cc:12-39 | the window after every character is the longest with two distinct characters that ends there |
| TwoCharBlocks.FindMaxByRuns | algorithms/find_two_substring.cc:4-55 | the longest block with at most two distinct characters, for every string |
| TwoCharBlocks.Shrink | algorithms/find_two_substring_daiwei.cc:16-22 | the head stops at the first start that leaves two characters |
| TwoCharBlocks.FindMaxByCounts | algorithms/find_two_substring_daiwei.cc:5-29 | the same maximum, for every ASCII string |
| TwoCharBlocks.HeadMovesForward | algorithms/find_two_substring_daiwei.cc:12-25 | the head of the window never moves back |
| TwoCharBlocks.LongestIsUnique | algorithms/find_two_substring.cc:54 | there is only one such maximum |
| TwoCharBlocks.BothAgree | algorithms/find_two_substring_daiwei.cc:5-29 | the two algorithms agree on every ASCII string |

## Left out

- LzoDecoder.Decompress: specified for calls in which no forbidden access is made; the others, the plain decoder on malformed input and the safe one on some blocks too long for its registers, have no defined behaviour to describe.
- LzoDecoder.DoLoopTop: the aligned variant of `COPY4` and the alignment tests are not modelled; the variant for unaligned access is.
- LzoCompressor.FindMatch: the two hash functions are arbitrary; which candidates are compared is determined by them, and which of them the C file uses is not modelled.
- AhoCorasick.AhoCorasick.GetMatchOff: the result is a map from ids to indices; that iteration over the set runs from large ids to small is not modelled.
- Utf8Convert.ToUcs: a NUL-terminated source must hold whole characters, as its comment demands; reads past the NUL on other text are not modelled.
- Utf8Walk.Offset: specified on valid text, as is `CharNum`.
- Utf8Escaping.Unescape: a lone backslash at the very end, where the source would read past the NUL, is excluded.
- The LZO1Y, LZO1Z and dictionary variants, `__lzo_init_v2` and platform detection: configuration of code that is not built.
- LzoCut.CutBlocksAreNoticed: for calls of at least one byte, since the first one is read before any test.
- LzoCodes.DataDoesNotFit: how much of the data is written before the code is returned is not stated beyond its being the beginning.
- `word_count` (never updated) and `show_set` of the matcher: nothing to prove, or output only.
- `u8_strchr`, `u8_memchr`, `u8_strlen`, `u8_is_locale_utf8`, `u8_vprintf`, `u8_printf`: searches that add only easy members, or depend on what lies past the text, or do I/O.
- The copies of these files under `projects/` and `thirdsrc/`, and the sorting and searching samples in `algorithms/`.
