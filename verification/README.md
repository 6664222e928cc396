# A verified model of the broker

This project models the in-memory core of a topic-based publish/subscribe broker and proves what its
parts promise. Subscribers speak a subset of RESP and subscribe to topics; publishers send messages;
a message goes to the subscribers of every topic it starts with.

- **Hash table** (`GhtModel`, `GhtLru`, `GhtMoveToFront`, `GhtTable`). `GhtModel` is the table as a
  value: bucket chains as sequences of keys, the age list, and the data. `GhtTable` is the linked
  structure, every entry on two doubly linked lists at once, each method proved against the operation
  of the same name on values. The theorems are about runs: the structure stays well formed, the table
  refines an insertion-ordered map, a bounded table with move-to-front is an LRU cache, move-to-front
  is within twice any fixed order, automatic rehashing bounds the load.
- **CRC hash** (`Crc`). The table-driven loop against a register that takes one bit at a time, and what
  that register tells apart.
- **String buffers and codecs** (`CStrings`, `Sds`, `SdsArgs`, `SdsGrammar`, `SdsSplit`, `Decimal`).
  Growing and cutting buffers, quoting and splitting argument lines, the grammar of the lines that are
  split, split and join, bounded decimal text.
- **Subscriber protocol** (`Resp`, `RespGrammar`, `SubClient`). `Resp` is the resumable request parser on
  values, with the theorems on reading in pieces and on the round trip; `RespGrammar` says which bytes
  are a request; `SubClient` is the client whose fields the parsers and the reply encoder update.
- **Topics and publication** (`Topics`, `PubSub`). `Topics` says who is registered after a run of
  subscriptions and which topics a message matches; `PubSub` is the trie walk and the fan-out.
- **JSON** (`JsonStrings`, `JsonPrint`, `JsonLayout`, `JsonParse`, `JsonGrammar`, `JsonDocuments`,
  `JsonRoundTrip`, `JsonMinify`, `JsonMeaning`). Literals with their transcoding, printers with
  precomputed buffer sizes and their layout, the recursive parser and the grammar of exactly the texts it
  accepts, the in-place minifier; parsing undoes printing, and minifying keeps what a text is parsed as.

Conventions. A byte is a `char` and a byte string is a `string`; a C string is one without NUL, and a
pointer into it is an index that may stand at the terminator. A `void *` datum is an `Option`, with
`None` for NULL. Error returns are values of a result type. A method that changes state is proved
against a function on values, and the theorems are about those functions.

Verify everything with `dafny verify dfyconfig.toml`.

## Where the code and its documentation disagree

The model follows the code.

- README.md:13-14 says that a message is published to every subscriber of a matching topic. A second
  subscriber to an existing topic is not registered (src/protocol/subcli.c:327-342): `Topics.RunTracks`
  and `Topics.MessageReaches` say exactly who is.
- src/common/ght_hash_table.h:289-291 says that a bucket callback returning -1 makes the table offer the
  second last entry. The code ignores the result (src/common/ght_hash_table.c:449-477): the last entry
  goes.
- src/common/sds.c:669-670 says that splitting an empty string gives NULL. The code returns an array
  without tokens (src/common/sds.c:690-693).
- An inline request drops two bytes after its text whatever ended it (src/protocol/subcli.c:234-243), so
  a line ended by a bare line feed loses one byte of what follows. `SubClient.InlineTakesItsLine` says
  exactly when a request takes its line and no more; `SubClient.BareLineFeedLosesAByte` is an input
  for which it does not.
- A bulk header without a line end in a buffer over the limit fails without dropping the bytes already
  consumed (src/protocol/subcli.c:158-163), and its result is that of a call that waits.
  `Resp.ReadingInPieces` says, for a first call that waits and for one that fails so, exactly when
  another call with more bytes is as good as one call on the whole; `Resp.TooBigBulkCountBreaksResumption`
  and `Resp.TooBigCallIsChanged` are inputs of the two kinds for which it shows.
- A new client is taken to have no arguments, but nothing sets `argc` and `argv`
  (src/protocol/subcli.c:44-60). `SubClient.SubscribeClient.constructor` takes both as found.
- The arguments of a request are dropped only once the read buffer has been read through
  (src/protocol/subcli.c:285-308). A request behind another one in the buffer is read with `argc` above
  0, into a vector allocated for its own arguments alone (src/protocol/subcli.c:150-151, 196). The model
  has no such state: a request begins without arguments, as after `SubClient.SubscribeClient.Reset`.
- The comment at src/common/sds.c:814-818 names unbalanced quotes as what is not split. A text between
  single quotes that ends with a backslash is not either, because the backslash escapes the closing quote
  (src/common/sds.c:871-874): `SdsGrammar.SingleQuotesTakeAnything`.
- The JSON parser takes more than section 2 of RFC 8259 allows: one zero in front of other digits, a minus
  sign alone, any control character as a blank, any character behind a backslash, control characters in
  literals, and at the end of the text a literal without its closing quote. `JsonDocuments.Doc` and
  `JsonGrammar.Piece` are exactly what it takes.
- A rehash stops at the first NULL datum (src/common/ght_hash_table.c:728), so entries behind it are
  lost. `GhtModel.RehashKeepsContents` says exactly when nothing is.

## Model

| member | source | states |
|---|---|---|
| GhtModel.MaskIsRemainder | src/common/ght_hash_table.c:310-318 | the hash masked with one less than a power of two is its remainder by that power: the bucket is `hash mod size` |
| GhtModel.SizeIsLeastPowerOfTwo | src/common/ght_hash_table.c:300-318 | the size of a new table is a power of two, at least the request, and no larger than any other such power |
| GhtModel.RunKeepsTableWellFormed | src/common/ght_hash_table.c:409-593 | any run of inserts, gets, replaces, removes, rehashes and changes of setting, under any hash function, keeps every chain and the age list free of repeats, holding exactly the stored keys, each key in its own bucket; the chain lengths sum to the number of items |
| GhtModel.ChainLengthsSumToItems | src/common/ght_hash_table.c:442-489 | `i_items` is the sum of the chain lengths `p_nr` |
| GhtModel.RunRefinesOrderedMap | src/common/ght_hash_table.c:409-593 | with bounded buckets off and no NULL data, every run gives the answers and leaves the contents of a map that remembers insertion order, whatever the hash function, the heuristics and the rehashing |
| GhtModel.RehashKeepsContents | src/common/ght_hash_table.c:707-770 | rehashing keeps the key-to-data map exactly when no stored datum is NULL; then it keeps the insertion order too |
| GhtModel.AutomaticRehashBoundsLoad | src/common/ght_hash_table.c:433-438 | over every run on a table that rehashes automatically, `i_items <= 2 * i_size + 1` |
| GhtModel.InsertAddsOne | src/common/ght_hash_table.c:409-493 | a new key in a table that is not crowded, without a bucket limit: the size and the settings stay, the key is the newest and first of its chain, and every other entry stays as it is, NULL data included |
| GhtModel.InsertDoublesWhenCrowded | src/common/ght_hash_table.c:432-438 | with automatic rehashing and more than `2 * i_size` items the size becomes exactly `2 * i_size`; if no datum is NULL everything else stays |
| GhtModel.StepKeepsSize | src/common/ght_hash_table.c:432-438 | no operation but such an insertion or a rehash on demand changes the size, and each setting changes only when it is set |
| GhtModel.GrownTablesWereFull | src/common/ght_hash_table.c:432-438 | over a run without a rehash on demand, if the size has grown to s then some part of the run before that left more than s items |
| GhtModel.RehashKeepsSettings | src/common/ght_hash_table.c:707-770 | a rehash takes the least power of two that is at least the size asked for and keeps hash function, heuristics, automatic rehashing and bucket limit |
| GhtLru.RunIsLruCache | src/common/ght_hash_table.c:97-124 | with move-to-front, a bucket limit and automatic rehash off, over every run each chain is ordered most recently touched first and never exceeds the limit, and each overflow evicts exactly the least recently touched entry of its bucket and reports it once |
| GhtLru.EvictionStep | src/common/ght_hash_table.c:441-477 | one insertion into a cache: a stored key is refused; a full bucket gives up the entry whose last touch is oldest; otherwise nothing is given up |
| GhtLru.CreatedCache | src/common/ght_hash_table.c:373-395 | a new table set up as a cache meets the cache invariant with nothing touched yet |
| GhtMoveToFront.MoveToFrontIsCompetitive | src/common/ght_hash_table.c:97-188 | for any m successful gets on one bucket of n entries, the nodes visited are at most 2S - m + n(n-1)/2, where S is the cost of the same gets in any fixed order |
| GhtMoveToFront.OneLookup | src/common/ght_hash_table.c:160-188 | one lookup and move costs, inversions counted in, at most twice the position in the fixed order less one |
| GhtTable.HashTable.constructor | src/common/ght_hash_table.c:300-357 | the new object stands for the empty table of the model |
| GhtTable.HashTable.TransposeEntry | src/common/ght_hash_table.c:57-95 | relinking moves the entry one place up its chain, which stays a doubly linked list, and no other chain changes |
| GhtTable.HashTable.MoveEntryToFront | src/common/ght_hash_table.c:97-124 | relinking moves the entry to the head of its chain, which stays a doubly linked list, and no other chain changes |
| GhtTable.HashTable.UnlinkFromBucket | src/common/ght_hash_table.c:126-139 | the chain without the entry is a doubly linked list with its count one lower |
| GhtTable.HashTable.UnlinkFromAges | src/common/ght_hash_table.c:141-157 | the age list without the entry is a doubly linked list with its ends right |
| GhtTable.HashTable.SearchInBucket | src/common/ght_hash_table.c:160-188 | finds the entry with the key if there is one, visits as many entries as its position says, and leaves the table the model's heuristics give |
| GhtTable.HashTable.IndexFor | src/common/ght_hash_table.c:420-420 | the masked hash is the bucket of the model |
| GhtTable.HashTable.Get | src/common/ght_hash_table.c:496-517 | returns the stored datum and leaves the model's table |
| GhtTable.HashTable.Replace | src/common/ght_hash_table.c:520-550 | returns the previous datum and leaves the model's table |
| GhtTable.HashTable.Remove | src/common/ght_hash_table.c:553-592 | returns the removed datum and leaves the model's table, the age list without one node |
| GhtTable.HashTable.PlaceEntry | src/common/ght_hash_table.c:440-489 | links the new entry at the head of its chain and at the new end of the age list, unlinking and reporting the last entry of a full bucket |
| GhtTable.HashTable.Insert | src/common/ght_hash_table.c:409-493 | status, evicted entry and table are those of the model; both linked structures stay well formed |
| GhtTable.HashTable.Rehash | src/common/ght_hash_table.c:707-770 | rebuilds the whole linked structure; the table is the model's rehash |
| GhtTable.HashTable.First | src/common/ght_hash_table.c:595-621 | the iterator stands at the oldest entry |
| GhtTable.HashTable.Next | src/common/ght_hash_table.c:634-663 | the iterator moves on to the entry it had saved |
| GhtTable.HashTable.VisitRemoving | src/common/ght_hash_table.h:398-405 | an iteration whose body removes any entries already visited, the current one among them, any number a turn, still visits every entry once, oldest first; afterwards an entry is there if and only if it was stored and no turn named it after its visit, all lists keep their order, and nothing else has changed |
| GhtTable.StayKeepsOrder | src/common/ght_hash_table.h:398-405 | of two entries an iteration leaves, the one that came first in a list still does |
| GhtTable.HashTable.Execute | src/common/ght_hash_table.c:409-593 | any sequence of operations on one linked table gives the answers, and leaves the table, of the same run on values; the theorems about runs hold of it |
| GhtTable.HashTable.SetHeuristics | src/common/ght_hash_table.c:373-376 | changes the heuristics and nothing else |
| GhtTable.HashTable.SetRehash | src/common/ght_hash_table.c:379-382 | changes automatic rehashing and nothing else |
| GhtTable.HashTable.SetBoundedBuckets | src/common/ght_hash_table.c:384-395 | changes the bucket limit and nothing else |
| Crc.CrcHash | src/common/ght_hash_function.c:96-109 | for every byte string the table-driven loop computes the CRC of the bit-serial register: polynomial 04C11DB7, most significant bit first, preloaded with ones, complemented |
| Crc.CheckValue | src/common/ght_hash_function.c:96-109 | the CRC of the nine digits 123456789 is FC891918 |
| Crc.ResidueIsConstant | src/common/ght_hash_function.c:96-109 | any key with its own CRC behind it, most significant byte first, has the CRC 38FB2284 |
| Crc.LeadingZerosAreTold | src/common/ght_hash_function.c:101-101 | one to four zero bytes in front of any key change its CRC |
| Crc.LookupIsEightSteps | src/common/ght_hash_function.c:106-108 | from any register state, one table lookup does what the eight bits of the byte do one by one |
| Crc.TableIsShift8 | src/common/ght_hash_function.c:30-64 | each of the 256 entries is what eight steps make of its index |
| Crc.BitsAheadOfTime | src/common/ght_hash_function.c:96-109 | feeding in the first n bits of a word is having the word in the register and taking n steps |
| Crc.BurstsAreTold | src/common/ght_hash_function.c:92-109 | keys of one length that differ only within four neighbouring bytes never have the same CRC |
| Crc.WindowsDiffer | src/common/ght_hash_function.c:96-109 | from one register, different inputs of at most 32 bits lead to different registers |
| Crc.ShiftIsLinear | src/common/ght_hash_function.c:96-109 | a step of the register commutes with exclusive or |
| Decimal.ParsesExactlyItsPrint | src/util.c:89-153 | a byte string is accepted with value n if and only if n is a 64-bit integer and the string is its canonical text |
| Decimal.TextByPlaces | src/common/sds.c:301-331 | the text of 10n + d is that of n and the digit d, by their codes in ASCII, with a minus sign in front below zero |
| Decimal.StringToLL | src/util.c:92-153 | accepts exactly the canonical texts, returns their value, and no unsigned 64-bit intermediate wraps around |
| Decimal.LLToStr | src/common/sds.c:301-331 | writes the canonical text of any signed 64-bit integer and a NUL into 21 bytes |
| Decimal.ULLToStr | src/common/sds.c:333-359 | the same for unsigned 64-bit integers |
| SdsArgs.CatRepr | src/common/sds.c:744-767 | appends the quoted form of the bytes |
| SdsArgs.SplitArgs | src/common/sds.c:819-927 | returns the arguments the grammar of quotes and escapes gives, None on unbalanced quotes |
| SdsArgs.DigitsAreSpelled | src/common/sds.c:769-800 | a character is a hexadecimal digit of value d exactly if it stands at d in 0123456789abcdef or 0123456789ABCDEF |
| SdsGrammar.SplitIsTheGrammar | src/common/sds.c:800-927 | a line is split into these arguments if and only if, up to its first NUL, it is blanks and then words, quoted texts, or words with a quoted text right behind, with blanks between them, that stand for these arguments, escapes, hexadecimal bytes of either case and all |
| SdsGrammar.UnbalancedLines | src/common/sds.c:814-818 | a line is not split if and only if no such parts make it up |
| SdsGrammar.WordsAreSplit | src/common/sds.c:886-907 | words without blanks, quotes and NUL, with any runs of space, tab, CR and LF around and between them, are the arguments |
| SdsGrammar.SingleQuotesTakeAnything | src/common/sds.c:871-885 | a text without NUL and single quote, put between two of them, is one argument, unless it ends with a backslash: then the line is not split |
| SdsGrammar.QuotedFormIsShortest | src/common/sds.c:744-767 | every byte is quoted as a shortest printable piece that stands for it, hexadecimal digits in lower case |
| SdsArgs.SplitUndoesRepr | src/common/sds.c:744-927 | splitting the space-joined quoted forms of any byte strings, NULs, quotes, backslashes and empty strings included, returns those strings |
| SdsArgs.ReprsArePrintable | src/common/sds.c:744-767 | quoted forms hold printable characters only, so no line end |
| SdsSplit.SplitLen | src/common/sds.c:681-728 | the tokens are the pieces at leftmost separators; every write is inside the slots of the growing array |
| SdsSplit.SplitIsTheLeftmost | src/common/sds.c:670-681 | an empty string has no pieces; the split of another is the one list that joins to it and is split at leftmost separators, and no other list is |
| SdsSplit.NoPieceHoldsTheSeparator | src/common/sds.c:694-717 | no piece contains the separator |
| SdsSplit.Join | src/common/sds.c:954-963 | concatenates the arguments, each as a C string, with the separator between |
| SdsSplit.JoinUndoesSplit | src/common/sds.c:681-963 | joining the split pieces restores the string if and only if it has no NUL |
| Sds.Sds.NewLen | src/common/sds.c:51-66 | a new buffer holds the bytes, no spare space, and a NUL behind them |
| Sds.Sds.MakeRoomFor | src/common/sds.c:129-147 | keeps the contents, gives at least the room asked for, and reallocates only if needed, with the documented spare space |
| Sds.Sds.CatLen | src/common/sds.c:239-251 | appends the bytes |
| Sds.Sds.Range | src/common/sds.c:598-627 | keeps the inclusive range in place, negative indexes from the end, out-of-range indexes clamped |
| Sds.RangeKeepsPositions | src/common/sds.c:598-627 | a position is kept exactly if it is neither in front of the start nor behind the end |
| Sds.Sds.Clear | src/common/sds.c:116-121 | empties the string |
| Resp.ReadingInPieces | src/protocol/subcli.c:115-211 | a first call that finished, or failed on bad bytes, does the same with b behind it. One that waits can be resumed with b, as if all had been there at once, if and only if it took nothing off the buffer, or the whole stays within the limit, or the loop on leftover and b does not stop for want of a line end. One that fails as too big fails so with b if and only if the header line it stopped at is still open, or nothing was read and that line is no header; trying again with b is harmless exactly under the condition of `CanRetry` |
| Resp.ReadingInPiecesWithinLimit | src/protocol/subcli.c:115-211 | while the buffer stays within MAX_INLINE_READ, reading in two pieces always gives the same result, arguments, counters and leftover bytes |
| Resp.ReadingInChunks | src/protocol/subcli.c:115-211 | the same for a request cut into any number of chunks |
| Resp.LoopKeepsWeight | src/protocol/subcli.c:154-201 | every byte the loop takes off the buffer is in the frames of the arguments it read or in a header read ahead, and arguments read and still to come add up to the number announced |
| Resp.TooBigCallIsChanged | src/protocol/subcli.c:155-163 | a concrete call that fails as too big in front of half a header, and finishes when the other half is there |
| Resp.TooBigBulkCountBreaksResumption | src/protocol/subcli.c:158-163 | a concrete request beyond the limit for which one call and two calls differ, because that branch does not drop what it consumed |
| Resp.ParseUndoesEncode | src/protocol/subcli.c:137-211 | for 1 to 16384 arguments of arbitrary bytes, each at most 16384 long, parsing the encoded request returns exactly them and leaves the bytes behind untouched |
| RespGrammar.HeaderIsRead | src/protocol/subcli.c:155-188 | a complete header line is read as length n exactly if it is a dollar sign and the canonical text of n, with n from 0 to 16384, and refused if it is that for no n |
| RespGrammar.LoopIsTheGrammar | src/protocol/subcli.c:154-208 | the loop adds these arguments and stops for this reason if and only if the bytes are, for each argument in turn, its header, CR and one byte, the argument and two bytes, followed by something to stop at for that reason |
| RespGrammar.CountIsRead | src/protocol/subcli.c:121-152 | the first line is a star and the canonical text of a number: at most 0 finishes at once, 1 to 16384 asks for that many arguments, anything else is refused |
| RespGrammar.RequestIsTheGrammar | src/protocol/subcli.c:115-211 | by its text alone: when a request succeeds, when it is refused for good, and when because the buffer is longer than 16384; it waits in every other case |
| RespGrammar.AcceptedIsRequested | src/protocol/subcli.c:115-211 | a call succeeds with these arguments and this leftover if and only if the bytes are a request for exactly them, followed by it |
| SubClient.SubscribeClient.constructor | src/protocol/subcli.c:44-60 | a new client has an empty read buffer, an empty reply buffer and no request begun; `argc` and `argv` are whatever the memory held, and the first request can be read if and only if that `argc` is 0 |
| SubClient.SubscribeClient.Reset | src/protocol/subcli.c:77-97 | drops the arguments and is ready for the next request, whatever is in the read buffer |
| SubClient.SubscribeClient.ProcessMultibulkBuffer | src/protocol/subcli.c:115-211 | from a client without arguments of an earlier request, result, arguments, counters and buffer are those of the parser on values |
| SubClient.SubscribeClient.TakeArguments | src/protocol/subcli.c:154-201 | at every turn `pos <= len` and `argc + multi_bulk_len` is the announced number of arguments |
| SubClient.BulkHeader | src/protocol/subcli.c:155-188 | reads one bulk length line: missing, incomplete, bad or good |
| SubClient.SubscribeClient.ProcessInlineBuffer | src/protocol/subcli.c:213-258 | result, arguments and buffer of an inline request, empty arguments dropped |
| SubClient.InlineEqualsMultibulk | src/protocol/subcli.c:115-258 | for non-empty NUL-free arguments within the limits, the quoted inline request ended by CR LF and the RESP request leave the same state |
| SubClient.InlineTakesItsLine | src/protocol/subcli.c:213-258 | an inline request that is read takes exactly its line if and only if the line ends in CR LF or its line feed is the last byte of the buffer |
| SubClient.InlineIsTheGrammar | src/protocol/subcli.c:213-258 | an inline request is read if and only if its line is one of the grammar of arguments, and gives the arguments that are not empty |
| SubClient.InlineReadsWords | src/protocol/subcli.c:213-258 | words with runs of blanks around and between them, on a line ended by CR LF, are the arguments, and what follows the line is left |
| SubClient.NonEmptyIsAFilter | src/protocol/subcli.c:244-256 | the arguments kept are those not empty, in their order, each up to its first NUL |
| SubClient.BareLineFeedLosesAByte | src/protocol/subcli.c:232-245 | two requests ended by bare line feeds: the second loses its first byte |
| SubClient.SubscribeClient.AddReplyToBuf | src/protocol/subcli.c:433-443 | appends all or nothing |
| SubClient.SubscribeClient.AddReplyBulk | src/protocol/subcli.c:419-431 | the three appends of a bulk reply |
| SubClient.BulkIsFrameIffItFits | src/protocol/subcli.c:419-443 | a reply is one whole frame if and only if the whole frame fits |
| SubClient.BulkPartsFit | src/protocol/subcli.c:419-443 | each of the three parts of a reply is there exactly if there was room for it in 16384 bytes behind the parts before it |
| Topics.RunTracks | src/protocol/subcli.c:316-345 | after any run of subscriptions, trie and table hold exactly the first subscription of each storable topic, with that one client |
| Topics.SubscribeAnswers | src/protocol/subcli.c:316-345 | after any run a subscription succeeds if and only if its channel, up to a NUL, has letters only, the second subscriber to a topic like the first, and changes something if and only if it is the first |
| Topics.TrieAndTableAgree | src/protocol/subcli.c:316-345 | trie keys equal table keys if and only if no stored channel holds a NUL |
| Topics.MatchesAreThePrefixes | README.md:13-14 | the naive scan yields exactly the stored non-empty prefixes of the message, each once, in strictly increasing length |
| Topics.ServedAreFirstSubscribers | src/protocol/subcli.c:327-342 | a client is served under some of the given topics if and only if it was the first to subscribe to one of them |
| Topics.MessageReaches | src/protocol/pubcli.c:56-78 | a NUL-free message goes to a client if and only if the client was the first to subscribe to some storable non-empty topic the message starts with |
| Topics.ServedOncePerTopic | src/protocol/pubcli.c:37-78 | after any run of subscriptions a NUL-free message goes to a client as often as the client was the first to subscribe to a storable non-empty topic the message starts with |
| PubSub.TrieWalker | src/common/trie_util.c:90-104 | walks from one stored key to the next along the message and passes none |
| PubSub.NextKey | src/common/trie_util.c:90-104 | from the key of length m, stops at the next longer prefix that is a key |
| PubSub.Server.constructor | src/broker.c:66-80 | a new server has no topics and a table of its own, of size 512 |
| PubSub.Server.SubscribeChannel | src/protocol/subcli.c:316-345 | result and state are those of the subscription on values; what is added to the table is new, so subscriptions and publications can follow |
| PubSub.Server.SubscribeAll | src/protocol/subcli.c:316-345 | any run of subscriptions leaves the state of the same run on values, and every registered client among those that subscribed |
| PubSub.SubscribeThenPublish | src/protocol/pubcli.c:56-78 | any subscriptions on a new server and then one message: every client's reply buffer gets n deliveries, n the number of its first subscriptions to a storable non-empty topic the message starts with, and these are n whole frames if and only if all of them fit |
| PubSub.Deliver | src/protocol/pubcli.c:49-53 | every registered client gets the message once per registration, every other client nothing |
| PubSub.Server.SingleChanPublish | src/protocol/pubcli.c:37-54 | looks the channel up, leaves the table as it is, and delivers to its clients |
| PubSub.Patch | src/protocol/pubcli.c:67-69 | with the last NUL taken back and a new one put behind the key, `prefix` reads as that key |
| PubSub.Server.ProcessPubReadBuf | src/protocol/pubcli.c:56-78 | visits exactly the keys of the naive scan in its order; each client gets one copy for each of its registrations under a visited key; subscriptions are unchanged and the read buffer is emptied |
| PubSub.PublishedCounts | src/protocol/pubcli.c:37-78 | after a publication each client holds what as many deliveries as it has matching registrations leave |
| PubSub.DeliveredAreFrames | src/protocol/subcli.c:419-443 | n deliveries are n whole frames if and only if all of them fit the reply buffer |
| JsonStrings.DecodeUndoesUtf8 | src/common/cJSON.c:192-199 | the octets written for any scalar are decoded, by the syntax of RFC 3629, as that scalar, whatever follows |
| JsonStrings.StoreUtf8 | src/common/cJSON.c:192-200 | the fall-through switch writes the UTF-8 octets of the scalar backwards into the buffer |
| JsonStrings.EscapedScalarIsUtf8 | src/common/cJSON.c:179-200 | `\u` and four digits of either case that spell a scalar other than NUL are read as its UTF-8 octets |
| JsonStrings.EscapedPairIsUtf8 | src/common/cJSON.c:179-200 | two escapes, of digits of either case, that spell the surrogates of a scalar as in section 7 of RFC 8259 are read as its UTF-8 octets |
| JsonGrammar.UnitIsRead | src/common/cJSON.c:140-151 | four characters are read as the code unit u exactly if each is a digit, of either case, that spells its four bits of u |
| JsonGrammar.CodeIs | src/common/cJSON.c:179-200 | a code unit spelled so is read as its UTF-8 octets if it is a scalar but NUL, and as nothing if it is NUL or a surrogate without another |
| JsonGrammar.PairUnitIs | src/common/cJSON.c:183-200 | a high surrogate and the code unit behind it are read as the octets of their scalar if that is a low one, and as nothing if not |
| JsonGrammar.LiteralIsTheGrammar | src/common/cJSON.c:155-212 | a literal is read as v, in front of the rest, if and only if it is a quote, pieces that stand for v, and a closing quote or the end of the text |
| JsonGrammar.PrintedShortest | src/common/cJSON.c:215-248 | a character is printed in a shortest way section 7 of RFC 8259 allows, hexadecimal digits in lower case |
| JsonStrings.LastSixBits | src/common/cJSON.c:195-197 | the bits written for a continuation octet are 128 plus the last six bits |
| JsonStrings.DropSixBits | src/common/cJSON.c:195-197 | the shift by six is the division by 64 |
| JsonStrings.LeadBits | src/common/cJSON.c:198-198 | or-ing the mark into the lead octet is adding it |
| JsonStrings.PairBitsCombine | src/common/cJSON.c:189-189 | the bits combined from a surrogate pair are the scalar of the pair |
| JsonStrings.CountBoundsWrites | src/common/cJSON.c:155-207 | on well-formed literals the counting pass bounds the bytes the second pass writes, and both stop at the same closing quote |
| JsonStrings.ParseUndoesLiteral | src/common/cJSON.c:155-248 | a printed literal is parsed as the string it was printed for, and the parse ends at its closing quote |
| JsonStrings.ParseHex4 | src/common/cJSON.c:140-151 | four hexadecimal digits give their value, anything else gives 0 |
| JsonStrings.ParseString | src/common/cJSON.c:155-212 | both passes; every byte is written inside the buffer the first pass measured |
| JsonStrings.PrintStringPtr | src/common/cJSON.c:215-248 | both passes; literal, quotes and NUL are written inside the buffer the first pass measured |
| JsonPrint.PrintValue | src/common/cJSON.c:302-317 | the text of any tree, at any depth, formatted or not |
| JsonPrint.PrintNumber | src/common/cJSON.c:118-125 | the decimal text of any `int` fits the 21 bytes allocated |
| JsonPrint.PrintArray | src/common/cJSON.c:348-403 | the text of an array |
| JsonPrint.ComposeArray | src/common/cJSON.c:391-403 | entries, separators, brackets and NUL are written inside the size computed before |
| JsonPrint.PrintObject | src/common/cJSON.c:442-507 | the text of an object |
| JsonPrint.PrintEmptyObject | src/common/cJSON.c:450-459 | the text of an empty object fits `depth + 4`, or 3, bytes |
| JsonPrint.ComposeObject | src/common/cJSON.c:490-507 | tabs, names, values, separators, braces and NUL are written inside the size computed before |
| JsonPrint.PrintedIsNulFree | src/common/cJSON.c:302-507 | a printed text has no NUL inside, so `strlen` and `strcpy` see all of it |
| JsonLayout.PrintIsLaidOut | src/common/cJSON.c:302-507 | the print of any tree is laid out, said of its text alone: formatted, every brace that opens, comma of an object and last value of an object ends its line; a line starts with a tab for every bracket not closed, one fewer in front of a closing brace and two fewer in an empty object; a tab follows a colon, a space a comma of an array; no other blank, and unformatted no blank at all, stands outside literals |
| JsonLayout.ValueIsLaidOut | src/common/cJSON.c:302-507 | the same for a tree printed at any depth, in front of any text |
| JsonParse.ReadNumber | src/common/cJSON.c:96-115 | an optional sign, at most one leading zero and digits that start with no other zero; see below for fractions and exponents |
| JsonParse.ReadValue | src/common/cJSON.c:287-299 | value and end are those of the grammar on values |
| JsonParse.ReadArray | src/common/cJSON.c:320-345 | items and end are those of the grammar on values |
| JsonParse.ReadObject | src/common/cJSON.c:406-439 | members and end are those of the grammar on values |
| JsonParse.ParseWithOpts | src/common/cJSON.c:264-278 | leading blanks are skipped; if asked, nothing but blanks may follow |
| JsonDocuments.ParseIsTheGrammar | src/common/cJSON.c:96-439 | a value is parsed, in front of the rest, if and only if the text is one of the grammar that stands for it, with any blanks where blanks may stand, and the rest can follow it |
| JsonDocuments.WholeTextIsTheGrammar | src/common/cJSON.c:261-278 | if nothing may follow, a text is parsed if and only if it is one of the grammar with any blanks around it |
| JsonDocuments.TextIsTheGrammar | src/common/cJSON.c:261-278 | if anything may follow, if and only if it is blanks, a text of the grammar and something that can follow that |
| JsonRoundTrip.PrintedThen | src/common/cJSON.c:96-507 | for every tree, depth and format flag, parsing the print followed by a tail yields the same tree and that tail, if and only if the tail does not read as more of a number |
| JsonRoundTrip.ParseUndoesPrint | src/common/cJSON.c:264-285 | a whole print is parsed as its tree, also when nothing may follow |
| JsonRoundTrip.ParsedTextIsStable | src/common/cJSON.c:264-285 | whatever the parser accepts is a tree that can be printed, and its print is parsed as the same tree |
| JsonMinify.Minify | src/common/cJSON.c:581-595 | the text is rewritten in place to the minified text; the write pointer never passes the read pointer |
| JsonMinify.PrintedMinified | src/common/cJSON.c:283-595 | the formatted print of any tree at any depth, in front of any text, is minified to its unformatted print |
| JsonMeaning.MinifyKeepsMeaning | src/common/cJSON.c:264-595 | any text the parser accepts to its end is, once minified, parsed as the same tree; the minifier fails on such a text if and only if it is a literal without a closing quote |
| JsonMeaning.ValueCore | src/common/cJSON.c:287-595 | a value at the front of any text is parsed the same from its minified text, in front of anything that ends it |
| JsonMeaning.MinifyFilters | src/common/cJSON.c:586-589 | a text without quotes and slashes loses exactly its spaces, tabs, carriage returns and line feeds |
| JsonMeaning.LineCommentGoes | src/common/cJSON.c:590-590 | a line comment goes, up to its line end |
| JsonMeaning.BlockCommentGoes | src/common/cJSON.c:591-591 | a block comment goes, up to the first star and slash behind its opening slash; the star may be the opening one |
| JsonMeaning.OpenBlockHasNoEnd | src/common/cJSON.c:591-591 | a block comment has no end if and only if no star and slash stand behind its opening slash |
| JsonMinify.MinifyUnformats | src/common/cJSON.c:283-284 | the formatted print of any tree, minified, is exactly its unformatted print |

## Left out

- Sockets, events, logging, configuration, pid files and `main`; `send_reply_to_subcli` and the write side of events (`prepare_to_write` is taken to succeed).
- The command loop of `process_sub_read_buf` and `process_command`, which chooses a parser by the first byte and dispatches the arguments; the parsers it calls are modelled.
- Client release and unsubscription: runs have no disconnects.
- libdatrie and iconv: the trie is a set of strings of letters, its walk state the prefix walked, and conversion to its alphabet the identity on ASCII.
- PubSub.Server.ProcessPubReadBuf: requires a NUL-free ASCII message, because conversion of other bytes depends on the locale and on iconv.
- `hset`, a thin wrapper of the hash table, is the sequence of the clients registered for a channel; a channel only ever has one.
- The hash function is a parameter of the table; of the functions in ght_hash_function.c only the CRC is modelled, and key lookup compares whole keys.
- Allocation failure, freeing of entries and tables, replaceable allocators, and 32-bit overflow of table sizes (a shift beyond 2^30) and of item counts.
- GhtTable.HashTable.Insert: reports an evicted entry as a result instead of calling the bucket callback, so a callback that calls back into the table is not modelled.
- Insertion in the body of an iteration, after which the documentation leaves open whether the new entry is visited.
- SubClient.SubscribeClient.ProcessMultibulkBuffer: requires `argc` to be 0 when a request begins, which the code does not see to for a request behind another one in the buffer.
- Floating point in JSON: a fraction, an exponent or a value outside `int` has the outcome `Undefined`.
- JsonStrings.ParseString: a `\u` without four hexadecimal digits, and a backslash in front of the terminator, have the outcome `Undefined`, because the code then reads beyond what its first pass measured.
- JsonMinify.Minify: reports failure for an unclosed comment or literal, where the code would run past the terminator.
- JSON trees are values: the `next`, `prev` and `child` links, references, names absent from object members, the error pointer and the editing functions are not modelled.
- JsonPrint.PrintValue: returns the text its buffer holds up to the terminator; the buffers themselves are local to each printer.
- `sdscatprintf` and other formatting, `sdstrim`, `sdsmapchars` and the remaining `sds` helpers; `list.c`, `zmalloc.c`.
