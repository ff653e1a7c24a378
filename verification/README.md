# Proofs about the algorithmic core of the database-connect library

A model, in Dafny, of the parts of the library that compute without doing I/O, and proofs of what they promise.
Every procedure that works in place in the original (on an array, on linked nodes, on the fields of a struct or object)
is a method here that works in place, and is proved against a function or a predicate on values; what the original
promises is then proved about that.

| Files | Original | Main results |
|---|---|---|
| Memzip*, Memunzip | the author's LZ compressor | the match taken is the most profitable one of the window; decompression is exact if and only if the coding does not break even on an escape; exactly when the output is longer than the source, and by how much at most |
| QuickLz* except QuickLzNative* | QuickLZ in Java, levels 1 and 3 | round trip for every non-empty source; the source alone determines every token and every byte of the result; in level 1 the decoder rebuilds the encoder's hash table; the output never leaves its buffer |
| QuickLzNative* | QuickLZ in C, level 3, memory-safe | round trip; the source determines whether it is coded and every byte then; on arbitrary bytes the decoder stays inside its buffers; up to four literals at once are four single ones |
| Tree*, TreeDel* | height-balanced tree in memory | insertion keeps order, depths and balance; deletion keeps order and depths, and the balance exactly when a test on the stored depths holds at every step |
| LinkHash, LinkHashMap | json-c's hash table | over every run of add, delete, look up and resize, the map of the run in order of insertion; the exact conditions under which a search ends and a resize keeps the table in order |
| Json* | json-c's tokener and printer | parsing can be suspended anywhere; printing and parsing is the identity if and only if the value is at most 31 deep; what \u escapes, numbers, white space and comments are read as |
| Md5* | message buffering of MD5 | any division into updates feeds the blocks of the padded message (RFC 1321, sections 3.1 to 3.4) |
| Enigma* | the rotor ciphers | the wheels that a key makes, in closed form, and that they are wired for every key; decryption undoes encryption |
| MultiHash* | static multi-key hash | every key is found with its first row and number of rows |
| Radix64 | radix-64 codec | round trip in both directions, the second exactly for canonical texts |

Lz, Bytes, Bits and LittleEndian are what these share.

## Where the code differs from what is said about it

- memzip's header comment says that the output is never longer than the input. It is, exactly when the coding fits and
  has more escapes than its matches save (`MemzipLength.GrowsExactly`, `MemzipLength.CanGrow`), never by more than the
  bytes 0x10 to 0x17 behind the first one (`MemzipLength.LongerByEscapes`) and never beyond 11/8 of it
  (`MemzipLength.LongestOutput`): only literals are held back once the output has passed the source length. A
  destination of that size is what `Memzip.Memzip` is proved to stay within.
- A coding that breaks even is returned with exactly the length of the source, and memunzip then takes it for a stored
  one. `MemzipRoundTrip.RoundTrip` says that nothing else ever goes wrong, `MemzipLength.BreaksEvenShows` how a caller
  can see it.
- `lh_table_insert` tests the load by live entries. Deleted slots are not counted, so a table can fill up with
  tombstones, and then `lh_table_lookup_entry` does not end (`LinkHashMap.Saturate`). Lookups, deletions and
  `json_object_object_add` therefore have `SearchEnds` as their hypothesis, which is exactly when the probing ends
  (`LinkHash.ProbeEnds`). It holds throughout a run without deletions, replaced keys included, in a table of three
  slots or more, and after every resize to three slots or more that keeps the table in order (`LinkHashMap.Execute`,
  `LinkHashMap.NewObject`, `LinkHash.LinkHash.Resize`).
- `lh_table_resize` takes any size, but while the entries are entered the new table may double itself, and the size
  noted afterwards is still the one asked for. The table stays in order exactly if one entry less than it has is at most
  0.66 of the new size (`LinkHash.LinkHash.Resize`); otherwise the probing goes round in a part of the array, misses
  what lies beyond it (`LinkHashMap.Lost`) and may not end (`LinkHashMap.ShrinkTooFar`). The doubling that
  `lh_table_insert` asks for always keeps it in order.
- The deletion of the tree is called balanced. `R_blc` and `L_blc` always bring up the inner grandchild, which does not
  always restore the balance; `TreeDelExact.DelBalancedExactly` says exactly when deletion does,
  `TreeDelExact.LeaningIsGood` gives a condition that can be read off the tree, and `TreeDelBalance.DelCanUnbalance` is a
  tree for which it does not.
- In `\u` escapes the tokener accepts capital letters as digits nowhere (`JsonRoundTrip.EscapeAccepted`); the printer
  writes small ones.
- A comment `/* ... */` that ends in an even number of stars and a slash is not ended by them: the tokener takes the
  stars in pairs (`JsonBlank.BlockEndsExactly`, `JsonBlank.NotEnded`).
- A number with a capital E is read as the int before it (`JsonNumber.CapitalExponent`).
- QuickLZ counts the positions of a row in a byte and takes the count for the number of places in use, so after every 256
  positions of a hash the next 15 see only those places that the count has reached again (`QuickLzRow.SeenIs`).
- A C QuickLZ stream for fewer than four bytes would be rejected by the decoder's look-ahead guard. The compressor does
  not make one: below five bytes coding never pays.

## Model

| member | source | states |
|---|---|---|
| `MemzipFormat.UnzipEncode` | crypto/memzip.c:258-325 | Decoding inverts the token format: for every list of tokens that can be applied one after another (literals, escapes, both length forms, both distance forms, overlapping copies), the encoded string decodes to what the tokens produce, provided its length differs from the original's |
| `MemzipFormat.ReadBack` | crypto/memzip.c:282-322 | Whatever follows it, the code of a token is read back as exactly that token, and the reader stops right behind it: the six short flags, the long flag, the escape and the plain byte exclude each other, and the one- and two-byte distances are told apart |
| `MemzipSpec.AllTokens` | crypto/memzip.c:187-241 | The tokens the compressor chooses for any non-empty source, through any number of window slides, are valid (lengths 3 to 264, distances 1 to 16576 that fit their code) and expand to exactly the source |
| `MemzipSpec.GainIsSaving` | crypto/memzip.c:92-100 | The profit computed for a match is its length minus the bytes its token takes, and is positive |
| `MemzipSpec.SearchSound` | crypto/memzip.c:70-120 | Whatever part of the window is searched, the best candidate is a valid match token and a true repetition of the source |
| `MemzipBest.FindsBest` | crypto/memzip.c:70-120 | The match taken at a position is the most profitable one of the last 16576 bytes, as far as the window reaches: every nearer position of equal bytes with a valid token saves strictly less, and every one farther back saves at most as much, unless the match found is one that ends the search; said over repetitions and token lengths alone |
| `MemzipBest.NoneExactly` | crypto/memzip.c:70-120 | No match is taken exactly if no position of the window has equal bytes with a valid token |
| `MemzipRoundTrip.RoundTrip` | crypto/memzip.c:242-246 | For every source: decompression gives it back if and only if the coding does not break even on an escape, that is, does not fit with exactly the source's length while containing an escape; the direction that rests on memunzip's length test included |
| `MemzipRoundTrip.EscapeShows` | crypto/memzip.c:227-240 | A coded string as long as its source that contains an escape always differs from the source, so taking it for a raw copy is always wrong |
| `MemzipRoundTrip.NoEscape` | crypto/memzip.c:217-240 | Without escapes the coded string is never longer than the source |
| `MemzipRoundTrip.PlainSourceRoundTrip` | crypto/memzip.c:165-247 | A source without bytes 0x10 to 0x17 behind its first one always comes back |
| `MemzipRoundTrip.BreakEvenExists` | crypto/memzip.c:242-246 | The seven bytes 61 62 63 61 62 63 10 break even: memzip's output for them is computed and decompresses to something else |
| `MemzipLength.Account` | crypto/memzip.c:92-100 | For every valid token list the coded length is the original one, less what the matches save, plus one for each escape: the code's totalgain is exact |
| `MemzipLength.GrowsExactly` | crypto/memzip.c:242-246 | The output is longer than the source if and only if the coding fits and has more escapes than its matches save |
| `MemzipLength.BreaksEvenExactly` | crypto/memzip.c:242-246 | The coding breaks even on an escape if and only if it fits and the escapes are as many as the matches save, not zero |
| `MemzipLength.BreaksEvenShows` | crypto/memzip.c:264-268 | A caller can see the one failing case: the output has the length of the source and is not the source |
| `MemzipLength.LongerByEscapes` | crypto/memzip.c:227-235 | The output exceeds the source by at most the number of bytes 0x10 to 0x17 behind the first one, so it is never longer for a source that has none there |
| `MemzipLength.LongestOutput` | crypto/memzip.c:217-240 | For every source of n bytes the output has at most (11n+2)/8: the overrun test stops literals only, and matches written behind it take up to three quarters of what they stand for |
| `MemzipLength.CanGrow` | crypto/memzip.c:227-246 | The two bytes 01 10 are coded as three |
| `Memzip.ComprTok.constructor` | crypto/memzip.c:171-180 | An empty window: every chain is NIL |
| `Memzip.ComprTok.Deflate` | crypto/memzip.c:56-138 | The search along the hash chain returns the profit of the best match in the last 16576 bytes, considered latest position first with the code's stopping rules, and leaves its token bytes and its end in the fields: searching the chain loses nothing against looking at every position of the window |
| `Memzip.Examine` | crypto/memzip.c:79-119 | A candidate of the chain is accepted exactly if it agrees in three bytes, fits a distance code and saves more than the best one before it; the search stops on a long overlap or the longest match |
| `Memzip.ExtendMatch` | crypto/memzip.c:83-91 | A match is extended as far as the bytes agree, to the end of the source or 264 |
| `Memzip.ComprTok.WinSlip` | crypto/memzip.c:140-157 | Sliding the window by 16384 keeps every chain the exact list of the window's positions with its hash, latest first |
| `Memzip.ComprTok.ShiftHead` | crypto/memzip.c:144-149 | Heads move down by 16384, those that leave the window become NIL |
| `Memzip.ComprTok.ShiftPrev` | crypto/memzip.c:150-155 | Links of the upper half move to the lower half, those that leave the window become NIL |
| `Memzip.ComprTok.Link` | crypto/memzip.c:201-202 | A position becomes the head of the chain of its hash and links to the head before it |
| `Memzip.LatestIsLatest` | crypto/memzip.c:64-71 | The next position of a chain is the latest earlier one with the same hash, so each chain strictly descends and the search ends |
| `Memzip.Rolls` | crypto/memzip.c:181-208 | The rolling 15-bit hash after a byte is the hash of the three bytes there alone |
| `Memzip.Find` | crypto/memzip.c:188-202 | One position: the window is slid when past 32504, the best match is found, and the position enters its chain; no link index passes 32767 |
| `Memzip.Enter` | crypto/memzip.c:207-216 | All positions inside a match enter their chains, so the window is complete behind it |
| `Memzip.PutMatch` | crypto/memzip.c:217-223 | The token bytes of the match described by the fields are appended |
| `Memzip.PutLiteral` | crypto/memzip.c:227-240 | A byte is appended, escaped if it is 0x10 to 0x17, unless the output is already past the source length |
| `Memzip.Memzip` | crypto/memzip.c:165-247 | The destination holds exactly the specified compressed form: the tokens' encoding, or the source itself if a literal runs over; every write stays within a destination of (11*srcLen+2)/8 bytes |
| `Memunzip.GetToken` | crypto/memzip.c:282-322 | Reads the token at a position: length and distance, or the byte itself behind an escape |
| `Memunzip.PutToken` | crypto/memzip.c:277-322 | Decodes one token into the buffer, copies running upwards so that they may overlap |
| `Memunzip.Memunzip` | crypto/memzip.c:258-325 | Returns the length of the original and leaves it in the buffer, copies a string of the original's length as it is, and returns -1 when the output is full before the input ends |
| `Lz.CopyOf` | crypto/memzip.c:314-315 | If a string repeats itself at a distance, copying byte by byte from that distance rebuilds the repeated part, overlap included |
| `QuickLzWord.FastRead` | crypto/QuickLZ.java:296-302 | The little-endian value of up to four bytes |
| `QuickLzWord.FastWrite` | crypto/QuickLZ.java:304-308 | Writes the low bytes of a number, lowest first, and nothing else |
| `QuickLzWord.PutFlag` | crypto/QuickLZ.java:219-264 | Shifting in a flag at the top of the control word being filled appends it to the group's flags |
| `QuickLzWord.FullGroup` | crypto/QuickLZ.java:100-114 | The lowest bit of the control word is set exactly when its 31 flags are filled |
| `QuickLzWord.WordOfGroup` | crypto/QuickLZ.java:110-110 | A finished control word holds the group's flags from the lowest bit on and the stop bit above the last of 31 |
| `QuickLzWord.FinishWord` | crypto/QuickLZ.java:284-288 | Shifting the marker of an incomplete group down to bit 0 gives the control word of the group followed by zero flags |
| `QuickLzWord.RestAppend` | crypto/QuickLZ.java:100-114 | A stream of whole groups followed by more groups is the concatenation of their streams |
| `QuickLzHash.HashBit` | crypto/QuickLZ.java:118-118 | Each of the twelve bits of the hash tells whether two bits of the three fetched bytes, twelve apart, differ |
| `QuickLzHash.HashOnly` | crypto/QuickLZ.java:118-118 | It is the only number of twelve bits that does |
| `QuickLzHash.MatchBytes1` | crypto/QuickLZ.java:128-170 | The bytes of every level-1 match: the lowest four bits hold the length less two, or 0 with the length in a third byte; the twelve bits above them are those of the hash of the three bytes that are copied first |
| `QuickLzChoice.Picked3Only` | crypto/QuickLZ.java:185-266 | At level 3 there is one token for each position: the longest match with one of the last 16 positions of the same hash (as far as a counter of one byte shows them), more than two and less than 131071 back, the nearest of equally long ones, or the byte itself if there is none |
| `QuickLzChoice.Picked1Only` | crypto/QuickLZ.java:116-184 | At level 1 there is one token for each position: the longest match with the latest token start of the same hash, if its three bytes agree and it lies more than two back or in a run of six equal bytes behind three literals, otherwise the byte itself |
| `QuickLzChoice.ChosenOnly` | crypto/QuickLZ.java:95-266 | Of two sequences of tokens chosen one after the other for the same source, one begins with the other |
| `QuickLzChoice.CompleteOnly` | crypto/QuickLZ.java:69-283 | A source has one sequence of chosen tokens at most that reaches its end without the ratio test failing on the way |
| `QuickLzChoice.BothWays` | crypto/QuickLZ.java:102-108 | Where there is one, the ratio test fails on no beginning of it: giving up and going on exclude each other |
| `QuickLzChoice.OneResult` | crypto/QuickLZ.java:69-294 | Every byte of the result of compression is determined by the source and the level: the chosen tokens in their codes, or the stored form exactly if the ratio test fails at the beginning of some control word |
| `QuickLzRow.RowEntered` | crypto/QuickLZ.java:215-217 | A row keeps the latest 16 positions of its hash, each in the place that its number among them says, and a counter of one byte that says how many there were, signed or unsigned |
| `QuickLzRow.SeenIs` | crypto/QuickLZ.java:195-200 | The places of a row in use hold exactly the latest 16 positions of the hash that the counter shows; a counter that has come round to a number below 16 hides some |
| `QuickLzRow.FoundIsBest` | crypto/QuickLZ.java:195-213 | What the search of the row finds is the longest match that any position of the source below offers, the nearest of equals, and nothing is found exactly if none is offered |
| `QuickLzDecode.Decode3Code3` | crypto/QuickLZ.java:376-407 | The five level-3 codes exclude each other over their length and offset ranges and are inverted by the decoder, whatever bytes of the stream lie above them |
| `QuickLzDecode1.TableSkips` | crypto/QuickLZ.java:424-431 | Hashing positions that are no token starts is not needed: the table stays the table of the token starts |
| `QuickLzDecode.Decode1Code1` | crypto/QuickLZ.java:363-372 | The two level-1 codes are inverted by the decoder: hash, and length in the low digit or in a byte of its own |
| `QuickLzDecode.SomethingLeft` | crypto/QuickLZ.java:336-349 | At every point of a valid stream a control word is used up exactly when it is 1, and there are at least as many stream bytes left as original bytes, up to four: the look-ahead reads stay inside the stream |
| `QuickLzDecode.LiteralWord` | crypto/QuickLZ.java:468-480 | Behind the last place for a match every control word is the stop bit alone, so skipping it unread is right |
| `QuickLzDecode.CopyTail` | crypto/QuickLZ.java:466-482 | The literal tail, control words skipped unread, completes the original |
| `QuickLzDecode.Match3` | crypto/QuickLZ.java:376-438 | A level-3 match is decoded to the next token of the stream, its copy appended |
| `QuickLzDecode.DecodeLevel3` | crypto/QuickLZ.java:336-484 | From any valid level-3 stream of an original the decoder rebuilds exactly that original |
| `QuickLzDecode1.TableAnswers` | crypto/QuickLZ.java:358-361 | At every match of a level-1 stream the decoder's table holds, under the transmitted hash, the latest token start that the format designates |
| `QuickLzDecode1.HashLiterals` | crypto/QuickLZ.java:449-458 | After a literal the table knows every token start that has its three bytes by now |
| `QuickLzDecode1.HashMatch` | crypto/QuickLZ.java:421-432 | After a match the table knows every token start up to the match's own |
| `QuickLzDecode1.Match1` | crypto/QuickLZ.java:356-438 | A level-1 match is decoded through the rebuilt table to the next token of the stream |
| `QuickLzDecode1.DecodeLevel1` | crypto/QuickLZ.java:336-484 | From any valid level-1 stream of an original the decoder rebuilds exactly that original, though the stream carries hashes only |
| `QuickLzEncode.Flush` | crypto/QuickLZ.java:100-114 | A full group gets its control word in the place kept for it, and a place is kept for the next |
| `QuickLzEncode.PutLit` | crypto/QuickLZ.java:261-264 | A literal and its flag are appended to the stream |
| `QuickLzEncode.PutCode` | crypto/QuickLZ.java:230-257 | A match code and its flag are appended to the stream |
| `QuickLzEncode.PutTail` | crypto/QuickLZ.java:269-283 | The remaining bytes become literals and complete the tokens; the output is at most 187 bytes longer than the source, so the buffer of source length + 400 is never left |
| `QuickLzEncode.RoomGroup` | crypto/QuickLZ.java:98-114 | The bound on the output survives the start of a group: early in the source by the size of control words, later by the ratio test |
| `QuickLzEncode.Seal` | crypto/QuickLZ.java:284-293 | The last control word and the header complete a stream that stands for the source |
| `QuickLzEncode.StoreRaw` | crypto/QuickLZ.java:104-107 | The stored form: header without the compressed flag, and the source as it is |
| `QuickLzEncode.WriteHeader` | crypto/QuickLZ.java:59-67 | The nine header bytes, and nothing else is written |
| `QuickLzEncode.Test` | crypto/QuickLZ.java:102-102 | What the compressor compares at a full control word is exactly whether the tokens so far take more than 31/32 of what they stand for, past three quarters of the source |
| `QuickLzEncode.StartGroup` | crypto/QuickLZ.java:100-114 | The compression stops at a control word if and only if the ratio test fails on the tokens so far; otherwise a full group is flushed and nothing is lost |
| `QuickLzCompress3.FindBest` | crypto/QuickLZ.java:195-213 | The longest match among the places of the row in use, and of equally long ones the latest |
| `QuickLzCompress3.Extend` | crypto/QuickLZ.java:203-205 | A match is extended as far as the bytes agree, up to its limit |
| `QuickLzCompress3.Insert` | crypto/QuickLZ.java:215-217 | The position enters the next place of its row, the counter wraps like a signed byte, and the table goes on holding the latest 16 positions of every hash |
| `QuickLzCompress3.SearchAndInsert` | crypto/QuickLZ.java:187-217 | The search sees the row as it was before the position itself enters it |
| `QuickLzCompress3.PickCode` | crypto/QuickLZ.java:233-257 | The branches pick, for every length and offset, the code that the decoder takes apart again |
| `QuickLzCompress3.PutNext` | crypto/QuickLZ.java:185-266 | The token appended is the one for this position: the longest match offered, the nearest of equals, if less than 131071 back, otherwise the byte itself; the stream stays valid, the position goes on by what the token stands for, and no token is longer than that |
| `QuickLzCompress3.CompressLevel3` | crypto/QuickLZ.java:69-294 | For every non-empty source the one result that the choice of tokens and the ratio test determine; it stands for the source, with true sizes in the header, and is at most 187 bytes longer |
| `QuickLzCompress1.Visit` | crypto/QuickLZ.java:118-123 | What the hash table, the cached bytes and the counters mean is kept when a position is entered |
| `QuickLzCompress1.FarMatch` | crypto/QuickLZ.java:125-125 | A table entry with the same three bytes, more than two back, is the very place the decoder finds under the hash |
| `QuickLzCompress1.RunMatch` | crypto/QuickLZ.java:125-125 | In the same-byte-run exception the decoder finds the place three back instead, and copying from there yields the same bytes |
| `QuickLzCompress1.ChooseToken` | crypto/QuickLZ.java:125-131 | Whenever the compressor sends a match there is a place at which the decoder will find its bytes |
| `QuickLzCompress1.MatchLength` | crypto/QuickLZ.java:128-153 | The unrolled comparison finds the full length of the match, up to its limit |
| `QuickLzCompress1.SendMatch` | crypto/QuickLZ.java:127-172 | A match is sent as hash and length; it is the one to be chosen for the position, and the stream stays valid |
| `QuickLzCompress1.NothingOffered` | crypto/QuickLZ.java:125-125 | Where the table entry may not be used no earlier token start offers a match at all: the literal is the token to be chosen |
| `QuickLzCompress1.PutNext` | crypto/QuickLZ.java:116-184 | The token appended is the one for this position, a match whenever one is offered; the tables keep their meaning, the literals counted are those sent since the last match, and the fetched three bytes are those of the next position |
| `QuickLzCompress1.CompressLevel1` | crypto/QuickLZ.java:69-294 | For every non-empty source the one result that the choice of tokens and the ratio test determine; it stands for the source, with true sizes in the header, and is at most 187 bytes longer |
| `QuickLz.SizeDecompressed` | crypto/QuickLZ.java:43-49 | The size of the original as the short or the long header has it |
| `QuickLz.SizeCompressed` | crypto/QuickLZ.java:51-57 | The size of the stream as the short or the long header has it |
| `QuickLz.ReadHeader` | crypto/QuickLZ.java:38-67 | Every field written into a header, short or long, is read back from it |
| `QuickLz.Compress` | crypto/QuickLZ.java:69-294 | For both levels: the one result that the source determines, a stream that stands for it, its sizes in the header; the empty source gives the empty result; other levels are refused |
| `QuickLz.Decompress` | crypto/QuickLZ.java:310-485 | Any stream that stands for an original, coded or stored, gives back that original; other levels are refused |
| `QuickLz.RoundTrip` | crypto/QuickLZ.java:69-485 | Decompressing what was compressed, at level 1 or 3, gives back every non-empty source |
| `QuickLzNativeCompress.Enter` | crypto/quicklz.c:419-421 | The position enters the next place of its row, the counter wraps at 256, and the table goes on holding the latest 16 positions of every hash |
| `QuickLzNativeCompress.FindLongest` | crypto/quicklz.c:381-417 | The longest match among the places in use, the latest of equally long ones, though the first place is tried by itself |
| `QuickLzNativeCompress.PutToken3` | crypto/quicklz.c:368-476 | The token appended is the one for this position: the longest match offered by the places in use, the nearest of equals, if less than 131071 back, otherwise the byte itself; the stream stays valid and no token is longer than what it stands for |
| `QuickLzNativeCompress.SpaceGroup` | crypto/quicklz.c:273-285 | The bound on the output survives the start of a group, before the middle of the source by the size of control words, later by the ratio test |
| `QuickLzNativeCompress.NextGroup` | crypto/quicklz.c:273-285 | The compression stops at a control word if and only if the ratio test fails on the tokens so far |
| `QuickLzNativeCompress.NineBytes` | crypto/quicklz.c:548-549 | From five source bytes on the minimum of nine is met by itself, so no byte behind the stream is counted in |
| `QuickLzNativeCompress.CompressCore` | crypto/quicklz.c:255-550 | 0 exactly where the ratio test fails, past the half, on the tokens chosen so far; otherwise the length (at least 9) of the stream of the chosen tokens, which stands for the source; the output stays within source length + 400 |
| `QuickLzNativeDecode.BitlutIs` | crypto/quicklz.c:561-561 | Each of the 16 entries of the table is the number of flags of 0 from the lowest on, up to four |
| `QuickLzNativeDecode.LowFlags` | crypto/quicklz.c:687-693 | The number looked up is that of the flags of 0 up to the first 1 of the lowest four, and is positive whenever a literal is next |
| `QuickLzNativeDecode.SeveralLiterals` | crypto/quicklz.c:687-695 | Taking up to four literals at once leaves the decoder exactly where taking them one at a time would |
| `QuickLzNativeDecode.TakeLiterals` | crypto/quicklz.c:685-699 | Four bytes are copied and as many count as the table says; the copy stays inside both buffers |
| `QuickLzNativeDecode.MatchIs` | crypto/quicklz.c:631-672 | On a stream that stands for an original the fetched code is the next token, and lies within both guards |
| `QuickLzNativeDecode.TakeMatch` | crypto/quicklz.c:631-676 | On any stream the two guards keep the copy inside the output; on one that stands for an original they reject nothing |
| `QuickLzNativeDecode.Tail` | crypto/quicklz.c:700-723 | The literal tail, with control words skipped unread and every read guarded |
| `QuickLzNativeDecode.DecompressCore` | crypto/quicklz.c:552-727 | On any bytes whatever: ends, never reads behind the stream nor writes outside the output, and returns 0 or the size; on a stream for an original of at least four bytes it returns the size and the original; on one for fewer it returns 0 |
| `QuickLzNativeDecode.ShortRest` | crypto/quicklz.c:582-585 | The look-ahead guard is what rejects originals of fewer than four bytes: their streams have too few bytes |
| `QuickLzNative.PutHeader` | crypto/quicklz.c:797-812 | The short or long header in front of the body |
| `QuickLzNative.Compress` | crypto/quicklz.c:729-818 | 0 for an empty or too large source; the source itself, without a header, only when the compressor gives up or the chosen tokens, in nine bytes at least, do not make it shorter; otherwise the stream of the chosen tokens, shorter than the source, with the true sizes in the header |
| `QuickLzNative.OneStream` | crypto/quicklz.c:729-818 | The stream that compression gives is determined by the source |
| `QuickLzNative.SentOrKept` | crypto/quicklz.c:799-812 | A source that has such a stream is never kept as it is |
| `QuickLzNative.OpenPacked` | crypto/quicklz.c:177-199 | The size functions give the true sizes of every coded result, below and from 216 bytes on |
| `QuickLzNative.Decompress` | crypto/quicklz.c:820-860 | Safe on any stream for which the buffers have the sizes of the header; gives back the original of every coded result |
| `QuickLzNative.RoundTrip` | crypto/quicklz.c:729-860 | Whenever compression returns less than the size, decompression returns the size and the original bytes |
| `TreeSpec.AddContents` | ds/tree.c:15-125 | On any ordered tree with exact depths, insertion grows the in-order contents by exactly the new key at its place, or leaves them as they are |
| `TreeSpec.InsertNew` | ds/tree.c:21-29 | A new key: one entry more, between the smaller and the larger ones |
| `TreeSpec.InsertPresent` | ds/tree.c:118-122 | A key that is there: the contents do not change |
| `TreeSpec.AddBalanced` | ds/tree.c:41-117 | Insertion keeps a height-balanced tree balanced and raises its height by one at most |
| `TreeSpec.DoubleRightKeeps` | ds/tree.c:53-73 | The double exchange keeps order and contents, and every stored depth is exact afterwards |
| `TreeSpec.SingleRightKeeps` | ds/tree.c:42-52 | The single exchange keeps order and contents, and every stored depth is exact afterwards |
| `TreeSpec.InsertOnlyRuns` | ds/tree.c:15-125 | Every insert-only run from the empty tree ends in an ordered, balanced tree with exact depths that holds exactly the inserted keys |
| `TreeSpec.FewestNodes` | ds/tree.c:41-42 | A balanced tree of height h has at least Fib(h+2)-1 nodes |
| `TreeHeap.ExchangeRight` | ds/tree.c:42-52 | The nodes are relinked to the single rotation, none lost, none used twice |
| `TreeHeap.ExchangeLeft` | ds/tree.c:86-97 | The mirror image |
| `TreeHeap.ExchangeRightTwice` | ds/tree.c:53-73 | The nodes are relinked to the double rotation |
| `TreeHeap.ExchangeLeftTwice` | ds/tree.c:98-117 | The mirror image |
| `TreeHeap.AddedLeft` | ds/tree.c:34-74 | Depth and rotation after an insertion on the left |
| `TreeHeap.AddedRight` | ds/tree.c:77-117 | Depth and rotation after an insertion on the right |
| `TreeHeap.BBTreeAdd` | ds/tree.c:15-125 | The nodes in memory become those of the insertion on values; a node is allocated exactly if the key was not there |
| `TreeQuery.AboveIsLeast` | ds/tree.c:179-221 | The descent to the right on smaller keys, to the left remembering the node on larger ones, ends on the least key above (or equal) |
| `TreeQuery.BelowIsGreatest` | ds/tree.c:224-266 | The mirror image ends on the greatest key below (or equal) |
| `TreeQuery.BBTreeFind` | ds/tree.c:160-176 | The node of the key, NULL exactly if no node has it |
| `TreeQuery.BBTreeGT` | ds/tree.c:179-193 | The node of the least key above the given one, NULL exactly if there is none |
| `TreeQuery.BBTreeGTEQ` | ds/tree.c:202-221 | The node of the least key not below the given one |
| `TreeQuery.BBTreeLT` | ds/tree.c:224-243 | The node of the greatest key below the given one |
| `TreeQuery.BBTreeLTEQ` | ds/tree.c:246-266 | The node of the greatest key not above the given one |
| `TreeDelSpec.RRotKeeps` | ds/tree_del.c:6-16 | The rotation, moving depths along instead of computing them, keeps contents and leaves exact depths |
| `TreeDelSpec.RBlcKeeps` | ds/tree_del.c:30-53 | R_blc keeps contents and leaves every stored depth exact, on any tree |
| `TreeDelSpec.LBlcKeeps` | ds/tree_del.c:55-78 | L_blc keeps contents and leaves every stored depth exact, on any tree |
| `TreeDelSpec.DropRightmost` | ds/tree_del.c:80-92 | Taking out the rightmost node leaves exactly the others, in order, with exact depths |
| `TreeDelSpec.DropLeftmost` | ds/tree_del.c:94-106 | Taking out the leftmost node leaves exactly the others, in order, with exact depths |
| `TreeDelSpec.DropRoot` | ds/tree_del.c:108-141 | Deleting a root leaves the contents of its two sides, in order, with exact depths |
| `TreeDelSpec.DelContents` | ds/tree_del.c:158-202 | On any ordered tree with exact depths, balanced or not, deletion removes exactly the key's entry and the tree stays ordered; the reported level is positive exactly if the key was there, and 0 with the tree unchanged otherwise |
| `TreeDelSpec.MixedRuns` | ds/tree_del.c:157-202 | Every run of additions and deletions from the empty tree ends in an ordered tree with exact depths that holds exactly the keys added and not deleted since |
| `TreeDelSpec.RemovePresent` | ds/tree_del.c:158-202 | One entry less, the others in their places |
| `TreeDelBalance.RBlcBalanced` | ds/tree_del.c:30-53 | On a node too high on the right by one, R_blc restores the balance if and only if a test on the stored depths around it holds |
| `TreeDelBalance.LBlcBalanced` | ds/tree_del.c:55-78 | The mirror image for L_blc |
| `TreeDelBalance.ShrunkLeftBalanced` | ds/tree_del.c:181-187 | One step up from a shrunk left side: the balance is lost exactly where R_blc is called and its test fails |
| `TreeDelBalance.ShrunkRightBalanced` | ds/tree_del.c:193-199 | The mirror image |
| `TreeDelBalance.DelBalanced` | ds/tree_del.c:158-202 | A deletion all of whose rebalancing steps meet their tests keeps the tree balanced, its height the same or one less |
| `TreeDelExact.DelBalancedExactly` | ds/tree_del.c:158-202 | Deletion from any balanced tree gives a balanced tree if and only if each of its rebalancing steps meets its test on stored depths |
| `TreeDelExact.LeaningIsGood` | ds/tree_del.c:181-199 | A condition read off the tree before the call: where nowhere on the way to the key and to its replacement the side taken is the lower one, every step meets its test |
| `TreeDelExact.LeftStepFails` | ds/tree_del.c:30-53 | A failed R_blc leaves the imbalance below the new root, or at the root without having lowered the tree |
| `TreeDelExact.StaysLeft` | ds/tree_del.c:181-187 | No step further up, whatever it rotates, repairs an imbalance left behind in its left subtree |
| `TreeDelExact.StaysRight` | ds/tree_del.c:193-199 | The mirror image |
| `TreeDelBalance.DelCanUnbalance` | ds/tree_del.c:34-46 | A balanced tree of seven keys from which deleting 5 leaves an unbalanced one |
| `TreeDelHeap.Rrot` | ds/tree_del.c:6-16 | The nodes are relinked to the rotation |
| `TreeDelHeap.Lrot` | ds/tree_del.c:18-28 | The nodes are relinked to the rotation |
| `TreeDelHeap.Rblc` | ds/tree_del.c:30-53 | The nodes are relinked to R_blc on values, none lost, none used twice |
| `TreeDelHeap.Lblc` | ds/tree_del.c:55-78 | The nodes are relinked to L_blc on values |
| `TreeDelHeap.TakeRightmost` | ds/tree_del.c:80-92 | The rightmost node is returned, and what is left over is the tree without it |
| `TreeDelHeap.TakeLeftmost` | ds/tree_del.c:94-106 | The leftmost node is returned, and what is left over is the tree without it |
| `TreeDelHeap.TDelete` | ds/tree_del.c:108-141 | The callback may refuse, and then nothing changes; otherwise the root's place is taken and every other node stays |
| `TreeDelHeap.BBTreeDel` | ds/tree_del.c:158-202 | The nodes in memory become those of the deletion on values, one node less; flg is the level of the removed node, 0 if there is none or the callback refuses |
| `TreeDelHeap.Execute` | ds/tree_del.c:157-202 | A run of additions and deletions on nodes in memory: linked as the values say, ordered, exact, with the keys added and not deleted since |
| `LinkHash.LinkHash.constructor` | json-c-0.9/linkhash.c:56-76 | An empty table, every slot EMPTY |
| `LinkHash.ProbeEnds` | json-c-0.9/linkhash.c:159-168 | Whatever number of slots the probing goes round in, it comes to a slot that ends it if and only if one of them is EMPTY or holds the key |
| `LinkHash.LinkHash.LookupEntry` | json-c-0.9/linkhash.c:157-170 | Given that the probing ends: the first slot on the probe path that is EMPTY or holds the key; NULL in the first case, and then no live slot at all has the key |
| `LinkHash.LinkHash.FindFree` | json-c-0.9/linkhash.c:130-137 | The probe of an insertion ends on a slot without an entry, all slots before it being taken |
| `LinkHash.LinkHash.Place` | json-c-0.9/linkhash.c:130-153 | The entry goes into that slot and to the end of the list; no other slot's mark changes |
| `LinkHash.LinkHash.Insert` | json-c-0.9/linkhash.c:123-154 | The entries grow by the new one at the end, through a resize if the table is loaded beyond 0.66; without deletions a table of at least 3 slots keeps an EMPTY slot |
| `LinkHash.GrownIs` | json-c-0.9/linkhash.c:97-100 | The new table keeps the size asked for while the entries are entered if and only if one entry less than there are is at most 0.66 of it |
| `LinkHash.LinkHash.Resize` | json-c-0.9/linkhash.c:90-108 | All entries in their order, in an array that may have been doubled while they were entered, the size noted being the one asked for: the table stays in order if and only if the two agree |
| `LinkHash.LinkHash.Reentered` | json-c-0.9/linkhash.c:95-100 | Walking the list and inserting into a new table of any size rebuilds the same entries in the same order, without tombstones, doubling the table when it is overloaded |
| `LinkHash.LinkHash.Unlink` | json-c-0.9/linkhash.c:191-205 | The slot becomes a tombstone and its neighbours in the list are linked with each other |
| `LinkHash.LinkHash.DeleteEntry` | json-c-0.9/linkhash.c:181-207 | -2 below the table and -1 for a slot without entry, nothing changing; otherwise exactly that entry goes and every probe path stays without gaps |
| `LinkHash.LinkHash.Delete` | json-c-0.9/linkhash.c:210-215 | One entry of the key goes, the others stay in their order; -1 exactly if there is none |
| `LinkHash.LinkHash.Lookup` | json-c-0.9/linkhash.c:173-178 | A value of the key, none exactly if no entry has the key |
| `LinkHash.ProbedAppended` | json-c-0.9/linkhash.c:133-140 | Filling the first slot without an entry on the key's probe path keeps every live key's path free of EMPTY slots |
| `LinkHash.ProbedRemoved` | json-c-0.9/linkhash.c:191-192 | A tombstone keeps every live key's probe path free of EMPTY slots |
| `LinkHash.ChainAppended` | json-c-0.9/linkhash.c:143-151 | The doubly linked list stays exactly the live slots in insertion order |
| `LinkHash.ChainRemoved` | json-c-0.9/linkhash.c:193-205 | Taking a slot out, first, last, only or in between, keeps the list exactly the live slots in insertion order |
| `LinkHashMap.ObjectAdd` | json-c-0.9/json_object.c:266-272 | After an addition the key has the new value and comes last, the others keep value and order; where no slot was a tombstone before, none is afterwards and some slot is EMPTY |
| `LinkHashMap.Refilled` | json-c-0.9/json_object.c:270-271 | A key that is replaced gets its own slot back when there are no other tombstones |
| `LinkHashMap.ObjectDel` | json-c-0.9/json_object.c:280-284 | After a deletion the key is gone and all others keep value and order; its slot is a tombstone and no other slot changes |
| `LinkHashMap.ObjectGet` | json-c-0.9/json_object.c:274-278 | The value of the map at the key, or none |
| `LinkHashMap.AddedIs` | json-c-0.9/json_object.c:266-272 | Adding to the ordered entries is updating the map |
| `LinkHashMap.DroppedIs` | json-c-0.9/json_object.c:280-284 | Deleting from the ordered entries is removing the key from the map |
| `LinkHashMap.RunIsMap` | json-c-0.9/json_object.c:266-284 | The ordered entries after any run of additions and deletions have distinct keys and are the map that the run makes |
| `LinkHashMap.Execute` | json-c-0.9/linkhash.c:90-215 | Any run of additions, deletions, lookups and resizes, up to an operation whose probing would not end or a resize to too few slots: the table is the map of the run in order of insertion, every lookup has yielded what the map held; a run of additions and lookups from a table without tombstones is done to its end |
| `LinkHashMap.NewObject` | json-c-0.9/json_object.c:244-278 | A new object filled field by field, keys repeated or not and whatever their hashes: the map of the run, and every later search ends |
| `LinkHashMap.Lost` | json-c-0.9/linkhash.c:103-103 | After a resize to fewer slots than the array has, an entry beyond them is never found |
| `LinkHashMap.ShrinkTooFar` | json-c-0.9/linkhash.c:95-105 | Three entries, resized to one slot: the array has four, and the search for an entry of the table never ends |
| `LinkHashMap.Saturate` | json-c-0.9/linkhash.c:128-128 | The load test ignores tombstones: in a table of any size a run of additions and deletions leaves only tombstones, and no probe of any search, however many are made, ends it |
| `Md5.C2l` | include/md32_common.h:373-377 | The word of four bytes, low-order byte first |
| `Md5.PC2l` | include/md32_common.h:378-384 | A word whose first bytes are pending is filled up |
| `Md5.PC2lP` | include/md32_common.h:385-392 | Bytes are added to a pending word that stays incomplete |
| `Md5.C2lP` | include/md32_common.h:395-400 | A word of fewer than four bytes, the rest zero |
| `Md5Spec.CountBits` | include/md32_common.h:422-428 | The pair Nl, Nh with its carry test and the shifted high part stays the bit length modulo 2^64 |
| `Md5.Md5.Count` | include/md32_common.h:422-428 | The counters after an update |
| `Md5.Md5.CompleteBlock` | include/md32_common.h:436-447 | The pending block is completed from the source and digested |
| `Md5.Md5.AddToBlock` | include/md32_common.h:448-470 | Source bytes that do not complete the block join the pending words, whose unused bytes stay zero |
| `Md5.Md5.DigestBlocks` | include/md32_common.h:473-508 | All whole blocks of the source are digested in order |
| `Md5.Md5.Keep` | include/md32_common.h:510-522 | The rest of the source becomes the pending words |
| `Md5.Md5.Update` | include/md32_common.h:413-523 | The context stands for the message so far and the new bytes: whole blocks digested, the rest pending, the length counted |
| `Md5Spec.PadOne` | include/md32_common.h:576-594 | The padded message of section 3.1 and 3.2 of RFC 1321 when the length fits into the block of the message's end |
| `Md5Spec.PadTwo` | include/md32_common.h:578-594 | The padded message when one block more is needed |
| `Md5.Md5.Stop` | include/md32_common.h:554-583 | The stop bit, and the spilled block if there is no room for the length |
| `Md5.Md5.Final` | include/md32_common.h:546-602 | The block function has been fed exactly the blocks of the padded message |
| `Md5.Digest` | include/md32_common.h:413-607 | For any division of a message into updates the result is that of the padded message's blocks |
| `EnigmaSetup.SeedNext` | crypto/enigma.c:20-38 | The seed in closed form, the checksum doubled once for each step and the bytes of the last 256 of the key weighed by powers of two, is what the code reaches step by step: doubled, the next signed byte added, modulo 2^32 |
| `EnigmaSetup.FirstFreeIs` | crypto/enigma.c:50-51 | The partner of a position is the first unjoined one from the drawn place on, round and round below it |
| `EnigmaSetup.OneMachine` | crypto/enigma.c:13-64 | The key and its checksum determine every cell of the three wheels |
| `Enigma.Enigma.constructor` | crypto/enigma.c:13-64 | The wheels are those of the key: t1 is the rotor turned by the checksum and the sum of the signed key bytes, after 256 exchanges each with a drawn place; t3 joins each position, unless joined before, with the first free one from the drawn place on; t2 is the inverse of t1; and t1 is a permutation of 0..255, t3 an involution without fixed point |
| `Enigma.Swapped` | crypto/enigma.c:45-45 | Exchanging two places of the rotor keeps it a permutation |
| `Enigma.OddRest` | crypto/enigma.c:49-51 | When a position is found unjoined, an odd number below it is unjoined: the search for a partner ends, and the modulus is not 0 |
| `Enigma.Enigma.JoinStep` | crypto/enigma.c:49-52 | Joining a position with the first free one from the drawn place on; all positions above stay joined in pairs |
| `Enigma.Enigma.SwapStep` | crypto/enigma.c:38-45 | One exchange with the drawn place; the rotor stays a permutation |
| `Enigma.Enigma.Invert` | crypto/enigma.c:54-56 | t2 becomes the inverse of t1 |
| `EnigmaSpec.CipherTwice` | crypto/enigma.c:78-78 | At every setting the machine exchanges the bytes in pairs and leaves none as it is |
| `EnigmaSpec.EnigmaTwice` | crypto/enigma.c:66-84 | enigma is its own inverse on every buffer and maps no byte to itself |
| `EnigmaSpec.CiphersInvert` | crypto/enigma.c:86-133 | enigma_decrypt and enigma_encrypt undo each other on every buffer: both see the same turns of the wheels |
| `EnigmaSpec.DecryptEncrypt` | crypto/enigma.c:101-132 | From any setting of the wheels decryption recovers the turn and the byte at each step |
| `Enigma.Enigma.Run` | crypto/enigma.c:66-84 | The loop in place computes the cipher that is proved self-inverse |
| `Enigma.Enigma.Encrypt` | crypto/enigma.c:86-110 | The loop in place computes the specified encryption |
| `Enigma.Enigma.Decrypt` | crypto/enigma.c:112-133 | The loop in place computes the specified decryption |
| `Enigma2.Reverse` | crypto/enigma2.c:9-19 | The buffer reversed |
| `Enigma2.Chain` | crypto/enigma2.c:28-32 | The running exclusive or: each byte combined with the result before it |
| `Bits.XorBit` | crypto/enigma2.c:28-32 | Exclusive or, bit by bit: a bit of the result is set exactly if those of the operands differ |
| `Enigma2.Unchain` | crypto/enigma2.c:41-44 | Each byte but the last combined with the one after it |
| `Enigma2Spec.UnchainChained` | crypto/enigma2.c:26-45 | Run on the reversed buffer, the second loop undoes the first |
| `Enigma2.StrRotor` | crypto/enigma2.c:65-76 | The two blocks are exchanged by three exclusive ors per byte |
| `Enigma2Spec.RotatedTwice` | crypto/enigma2.c:65-76 | Exchanging the blocks twice restores the buffer, for every place of the cut |
| `Enigma2Spec.RevInverts` | crypto/enigma2.c:21-46 | rev_enigma and enigma_rev undo each other |
| `Enigma2.EnigmaRev` | crypto/enigma2.c:21-33 | The buffer becomes the specified encryption, reversed and chained |
| `Enigma2.RevEnigma` | crypto/enigma2.c:35-46 | The buffer becomes the specified decryption |
| `Enigma2.Enigma2.constructor` | crypto/enigma2.c:48-63 | The first machine is that of the key, the second that of the first 256 key bytes, reversed and encrypted by the first, and the number kept is the checksum of all six wheels without its sign bit |
| `Enigma2Spec.Cipher2Inverts` | crypto/enigma2.c:78-92 | Decryption undoes encryption and the other way round, whatever the checksum of the wheels |
| `Enigma2.Enigma2.Encrypt` | crypto/enigma2.c:78-84 | The three stages in place, the machines unchanged |
| `Enigma2.Enigma2.Decrypt` | crypto/enigma2.c:86-92 | The three stages backwards, the machines unchanged |
| `Enigma2.RoundTrip` | crypto/enigma2.c:48-92 | From key setup to decryption: every buffer comes back |
| `MultiHash.EnterRow` | ds/multi_hash.c:40-57 | One row of the first pass: counted at its home, counted on the stack, entered or pushed |
| `MultiHash.FirstPass` | ds/multi_hash.c:39-58 | Every row is counted exactly once, at its home or on the stack of displaced keys; the stack never overflows |
| `MultiHashSpec.RoomForAll` | ds/multi_hash.c:59-62 | With at most key_count keys the empty slots hold all displaced keys |
| `MultiHashSpec.NewKey` | ds/multi_hash.c:48-56 | A row that is neither at home nor on top of the stack begins a new key, because equal keys are contiguous |
| `MultiHash.LastOfChain` | ds/multi_hash.c:69-70 | Following the links ends on the last place of the chain |
| `MultiHash.PutOnChain` | ds/multi_hash.c:64-71 | A displaced key enters an empty slot at the end of the chain of its home; chains of different homes stay disjoint and acyclic |
| `MultiHash.SecondPass` | ds/multi_hash.c:60-73 | All displaced keys find a place |
| `MultiHash.Build` | ds/multi_hash.c:16-76 | Every key is on the chain of its home with its first row and its number of rows, nothing else is in the index, and the result is the number of displaced keys |
| `MultiHash.Find` | ds/multi_hash.c:78-90 | The first row and exact run length of a present key; -1 exactly for an absent one |
| `Radix64.DigitBack` | crypto/a64n.c:76-87 | The digit tables invert each other, and no digit is the padding |
| `Radix64.DecodeEncode` | crypto/a64n.c:242-324 | Decoding gives back every byte sequence, zero bytes included, in all three classes of length modulo 3 |
| `Radix64.PaddingAtEnd` | crypto/a64n.c:262-281 | The text has four characters for each three bytes begun; '@' stands at the end only, once for each byte missing |
| `Radix64.EncodeDecode` | crypto/a64n.c:286-324 | A well-formed text comes back from its bytes if and only if the unused bits of its last digit are zero |
| `Radix64.ByteA64` | crypto/a64n.c:242-284 | The buffer holds the text and its terminator |
| `Radix64.A64Byte` | crypto/a64n.c:286-324 | The bytes of a well-formed text and their number |
| `Radix64.RoundTrip` | crypto/a64n.c:242-324 | Bytes to text and back: the same bytes and their number |
| `JsonToken.TurnKeeps` | json-c-0.9/json_tokener.c:198-617 | Every turn of the switch keeps the machine in order: a current level always exists, at most 32 levels, every lower level waits for its child, comment and escape states know what to return to; and a character that is looked at again is closer to being taken |
| `JsonToken.Step` | json-c-0.9/json_tokener.c:196-620 | A character takes only finitely many turns of the switch |
| `JsonRun.Resume` | json-c-0.9/json_tokener.c:166-182 | If parsing a prefix says "continue", parsing the rest on the same tokener gives the same state, error and result as parsing all at once, for every split, inside strings, escapes, numbers and literals too |
| `JsonRun.DepthBounded` | json-c-0.9/json_tokener.c:506-514 | The depth is always within 0..31 |
| `JsonRun.RunAfterFeed` | json-c-0.9/json_tokener.c:196-633 | Taking characters one after another composes |
| `JsonRoundTrip.ScanDecimal` | json-c-0.9/json_tokener.c:488-489 | Reading with %d what %d has printed gives the number |
| `JsonRoundTrip.LiteralText` | json-c-0.9/json_tokener.c:281-296 | null, true and false, as printed, are read back, whatever character follows |
| `JsonRoundTrip.NumberText` | json-c-0.9/json_tokener.c:469-500 | A printed int is read back when no number character follows |
| `JsonRoundTrip.EscapedChar` | json-c-0.9/json_tokener.c:376-442 | The printed form of every character but NUL, plain, short escape or \u00xx, is read back as that character, in strings and in keys |
| `JsonRoundTrip.HexTaken` | json-c-0.9/json_tokener.c:414-437 | In a \u escape exactly the digits 0 to 9 and the small letters a to f are taken; any other character but NUL is an error |
| `JsonRoundTrip.EscapeAccepted` | json-c-0.9/json_tokener.c:405-442 | A \u escape is accepted if and only if all four characters are such digits |
| `JsonUnicode.EscapeAppends` | json-c-0.9/json_tokener.c:405-442 | From inside any string or key, an escape of any four digits appends bytes that a decoder of UTF-8 reads as the number of the digits in base 16, and leads back to where it began |
| `JsonUnicode.Utf8Only` | json-c-0.9/json_tokener.c:420-434 | No other bytes do: the shortest form is used, with one, two or three bytes |
| `JsonNumber.NumberTaken` | json-c-0.9/json_tokener.c:469-500 | Every run of number characters gives the value found in the whole of it, a double exactly if it has a point or a small e, and an error if there is none |
| `JsonNumber.CapitalExponent` | json-c-0.9/json_tokener.c:476-489 | An exponent written with a capital E is lost: the digits before it give an int |
| `JsonBlank.SpaceExactly` | json-c-0.9/json_tokener.c:201-215 | Between tokens exactly the six space characters are skipped; any other but the slash goes to what is to follow |
| `JsonBlank.BlockEndsExactly` | json-c-0.9/json_tokener.c:298-349 | A block comment ends at a slash if and only if the stars before it are odd in number |
| `JsonBlank.NotEnded` | json-c-0.9/json_tokener.c:341-349 | So the comment /***/, which ends in C, does not end here |
| `JsonBlank.BlankSkipped` | json-c-0.9/json_tokener.c:201-349 | Wherever a token may begin or has ended, any white space and ended comments lead back to the same place |
| `JsonRoundTrip.StringText` | json-c-0.9/json_tokener.c:351-374 | A printed string without NUL is read back |
| `JsonValues.ValueText` | json-c-0.9/json_tokener.c:187-633 | The printed text of any value without doubles, with NUL-free texts and distinct keys, read at any level with room enough, leaves the value complete |
| `JsonBlank.BlankAround` | json-c-0.9/json_tokener.c:187-633 | A printed value of at most 31 levels with any white space and ended comments before and behind it still gives the value |
| `JsonTheorems.FittingRoundTrip` | json-c-0.9/json_tokener.c:187-633 | Printing and parsing is the identity on every such value whose children stand at most 31 levels deep |
| `JsonTheorems.DeepText` | json-c-0.9/json_tokener.c:506-514 | A value nested too deep for the levels left is refused with the depth error |
| `JsonTheorems.PrintParse` | json-c-0.9/json_tokener.c:187-633 | Printing and parsing gives the value back if and only if it is not nested more than 31 deep; deeper values give the depth error |
| `JsonTheorems.PrintParseInPieces` | json-c-0.9/json_tokener.c:166-182 | The printed text may be handed over in two pieces, cut anywhere |
| `JsonTheorems.PrintAndParse` | json-c-0.9/json_object.c:195-205 | From the printer's buffer through the tokener: the same value, exactly if it is not nested too deep |
| `JsonTokener.Tokener.constructor` | json-c-0.9/json_tokener.c:62-71 | A rested machine |
| `JsonTokener.Tokener.Reset` | json-c-0.9/json_tokener.c:90-100 | Back to the bottom level from whatever state |
| `JsonTokener.Tokener.WhiteTurn` | json-c-0.9/json_tokener.c:201-215 | The fields change as the machine's white-space step says |
| `JsonTokener.Tokener.StartTurn` | json-c-0.9/json_tokener.c:217-272 | The fields change as the machine's start step says |
| `JsonTokener.Tokener.NullTurn` | json-c-0.9/json_tokener.c:281-296 | The fields change as the machine's null step says |
| `JsonTokener.Tokener.BooleanTurn` | json-c-0.9/json_tokener.c:444-467 | The fields change as the machine's boolean step says |
| `JsonTokener.Tokener.NumberTurn` | json-c-0.9/json_tokener.c:469-500 | The fields change as the machine's number step says |
| `JsonTokener.Tokener.StringTurn` | json-c-0.9/json_tokener.c:351-374 | The fields change as the machine's string step says |
| `JsonTokener.Tokener.FieldTurn` | json-c-0.9/json_tokener.c:551-574 | The fields change as the machine's key step says |
| `JsonTokener.Tokener.EscapeTurn` | json-c-0.9/json_tokener.c:376-403 | The fields change as the machine's escape step says |
| `JsonTokener.Tokener.HexTurn` | json-c-0.9/json_tokener.c:405-442 | The fields change as the machine's \u step says |
| `JsonTokener.Tokener.CommentTurn` | json-c-0.9/json_tokener.c:298-349 | The fields change as the machine's comment step says |
| `JsonTokener.Tokener.PushTurn` | json-c-0.9/json_tokener.c:506-514 | A level is entered, or the depth error given |
| `JsonTokener.Tokener.PopTurn` | json-c-0.9/json_tokener.c:274-279 | A finished level is left and its value added to the parent |
| `JsonTokener.Tokener.StructureTurn` | json-c-0.9/json_tokener.c:502-615 | The fields change as the machine's steps between values say |
| `JsonTokener.Tokener.TightLoop` | json-c-0.9/json_tokener.c:149-155 | The inner loops over spaces, text, comments and numbers do what one character at a time would |
| `JsonTokener.Tokener.ParseEx` | json-c-0.9/json_tokener.c:187-633 | The loop over the stack of levels returns, for every valid tokener and text, the state, error, offset and object of the machine |
| `JsonPrinter.EscapeStr` | json-c-0.9/json_object.c:85-126 | Appending in pieces yields the character-wise escaping |
| `JsonPrinter.PrintStringTo` | json-c-0.9/json_object.c:400-407 | A quoted string |
| `JsonPrinter.PrintArrayTo` | json-c-0.9/json_object.c:450-465 | The printed array is appended, whatever its items |
| `JsonPrinter.PrintObjectTo` | json-c-0.9/json_object.c:210-230 | The printed object is appended, fields in their order |
| `JsonPrinter.PrintTo` | json-c-0.9/json_object.c:195-205 | The printed value is appended |
| `JsonObject.PutIsAdded` | json-c-0.9/json_object.c:266-272 | What the tokener adds to an object is what the hash table's map holds after the addition |

## Left out

General

- Memory allocation failure, NULL arguments and integer overflow of sizes are not modelled unless a row says so.
- Bit operations on numbers are written as arithmetic (`/`, `%`, sums of disjoint bits); exclusive or is bitwise.
- A buffer that is only read is a sequence, one that is written is an array.

memzip

- Memzip.Memzip: asks for a destination of `(11 * srcLen + 2) / 8` bytes, rounded up, and for two readable bytes behind
  the source, because the code writes and reads there; the two bytes only influence hashes, which the result does not
  depend on. That some source comes close to 11/8 is not shown.
- Memunzip.Memunzip: streams that are cut off inside a token or copy from before the output are excluded, because the
  code then reads or writes outside its buffers.
- Decompression in place (memzip.c:274-276).

QuickLZ

- Level 2, streaming buffers, the unaligned wide loads and stores of the X86X64 branches, and the C level 1 branches.
- QuickLz.Compress: sources of at most 2^31 - 401 bytes, as a Java array of source length + 400 requires.
- QuickLz.Decompress: streams that stand for no original are excluded at the supported levels (the original throws an
  index exception or gives some bytes); the C decoder is proved safe on them.
- QuickLzNativeCompress.CompressCore: works in a buffer of its own that keeps nine cells for the header, and the header
  is put in front afterwards; the original writes behind the header's place at once.
- QuickLzCompress1.MatchLength: the two-byte code without length comparison (line 128) is the case of length three.
- Compression ratio: which tokens are sent is determined, but how small the output gets is bounded only by the tokens.

Height-balanced tree

- TreeHeap.BBTreeAdd: a record is its key, an integer; the bytes behind the key and the callback `user_add_tree`, which
  may change them, are left out.
- TreeDelHeap.BBTreeDel: `user_free` is a test on keys that may refuse; that it frees what the record refers to is left
  out, as is the freeing of the node itself.
- `BB_Tree_Scan`, `BB_Tree_Free`, `BB_Tree_MAX`, `BB_Tree_MIN` and `BB_Tree_Count` are plain recursions.

Hash table and JSON

- LinkHash.LinkHash.Insert: the hash and the equality of keys are arbitrary, statistics counters and `free_fn` are left
  out, and doubling the size does not overflow. Operations other than a search on a table that a resize has put out of
  order are not modelled.
- LinkHash.LinkHash.Resize: a size of 0 is excluded, by which the original divides.
- LinkHash.LinkHash.DeleteEntry: an entry of another table is not modelled beyond the code's own negative-index test.
- JsonTheorems.PrintParse: doubles are excluded, because `%lf` prints them lossily; strings and keys contain no NUL, at
  which the original ends them; keys of one object are distinct, as the hash table makes them.
- JsonRoundTrip.ScanDecimal: integers are unbounded; the original's are those of `int`.
- JsonTokener.Tokener.ParseEx: values are trees instead of reference-counted objects, the print buffer is a sequence; a
  NUL inside a `\u` escape, which `strchr` finds behind the digits, ends the parse with the original's error, but what
  it leaves in the fields for the escape is not modelled. A text that ends in NUL is one whose last character is NUL.
- JsonPrinter.PrintTo: `printbuf` is concatenation; the iteration over an object follows its entries in order.
- Comments in JSON texts are parsed but not printed; `json_object_from_file`, `json_util` and `arraylist` beyond
  appending.

MD5

- Md5.Digest: the block function, the initial state and the output of the state's words are parameters. The two counters
  are words of 32 bits; any length is covered, since they are kept modulo 2^64.
- The big-endian macros, `HASH_TRANSFORM` and the aligned fast path, which feed the same blocks.

Enigma

- Enigma.Enigma.constructor: the checksum of the key is an arbitrary function; the key is not empty. The original takes
  `strlen` for a length that is not positive and returns without set-up if that is 0.
- Enigma2.Enigma2.constructor: the checksum of the wheels is an arbitrary function of them.

Multi-key hash

- MultiHash.Build: equal keys are next to each other, there are at most `key_count` of them and the hash is in range, as
  the callers guarantee; comparison functions are equality.

Radix-64

- Radix64.A64Byte: texts of groups of four digits, the last one possibly padded; other texts are not produced by
  `byte_a64`. The conversions of big numbers in the same file are left out.

Not modelled at all: the database, LDAP, authentication and logging code, DES, the big-number arithmetic, whose word
primitives are not part of this model, and the searching and CRC helpers.
