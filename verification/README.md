# Verified models of the exchange client's codecs, order books and handshake

The repository is a C++ client for cryptocurrency exchanges. This project models the parts of it
that compute something of their own, and proves what they compute for every input, every run of
messages and every interleaving of threads.

| files | what they model |
|---|---|
| `Bits`, `Base64Spec`, `Base64Codec`, `Base64Accumulator`, `Base64Alphabet` | base 64 as RFC 4648 (section 4) defines it, over bit strings, and the two encoders and two decoders of `utils/codec.cpp`: one pair on blocks of three and four bytes, one pair on a bit accumulator in an `int` that may wrap |
| `UrlCodec` | the two percent-encoders and the percent-decoder |
| `SmtpMail` | the attachment loop that encodes a file in pieces of 54 bytes |
| `Ordered`, `QueryString` | the order in which a `std::map` is walked, the query string made of a parameter map, and the signed request |
| `LevelBook`, `Okex` | price tables and the lists of levels that change them |
| `BinanceFeed`, `Binance` | the server's book as a numbered log of updates, the snapshot and the events, and the client that follows them |
| `Bitfinex` | the message handler with signed amounts, and the report that divides one side's sum by the other's |
| `TradeTotals` | the running totals of bitmex and huobi, and the report windows |
| `Bitmex`, `BitmexMessages` | rows keyed by `msgid` under the SQL statements that the code uses, and the top-ten report |
| `Handshake` | the flags, mutex and condition variable shared by the network thread and the subscribing threads |

Conventions. A `char` is a byte 0..255, signed where the code converts it. `double` is `real`. An
`int` accumulator is either unbounded or wraps in two's complement at a given width. A parsed JSON
message is a datatype; a value that the code reads with the wrong accessor stands for an abort.
Where the original would throw, abort or read outside a string, the model returns `None` or a false
flag. Both base 64 encoders are proved equal to the one function `Base64Spec.Encode` and both
decoders to `Base64Spec.Decode`, so they are equal to each other, and the lemmas about the
functions hold for all four loops.

Where a method is proved equal to a function, further lemmas fix what that function computes without
it: with the characters, constants and table names written out, on single elements and how they go
together, or over whole runs in terms of the messages.

## What the proofs say about the code

Some things one would expect of the code do not hold of it as written. For each, the project proves
the exact condition under which they do, and most have a concrete input or run on which they fail.

- Decoding returns what `urlEncode` was given exactly for strings of bytes 1 to 127. A byte above
  127 is sign-extended by `%X`, printed as `%0FFFFFF..`, and collides with another text.
- `deescapeURL` reads past the text exactly when a `%` in last place starts an escape (`a%`, but
  neither `%%` nor `%2%`, whose last `%` belongs to an escape before it).
- The repository's own base 64 decoders recover an attachment from its lines exactly if it has at
  most 54 bytes, because they stop at the first line break.
- Binance: an event whose last update number equals the snapshot's is applied, not dropped. It
  changes nothing exactly when every amount it sets is on a price that the snapshot shows; with a
  snapshot limited to ten levels it can add a level. That an event follows the one before it is
  printed about at line 373, but never enforced. An event after a gap leaves the replica a submap of
  the server's book exactly when no price that the replica keeps has changed in the missing updates;
  after any run, with any gaps, it is one exactly when each known price that the server had when it
  was written stands there as it did then. Subscribing to one symbol reopens the stream of all, which
  is how the other symbols can meet such gaps. A symbol that is cancelled comes back, and is streamed
  again, exactly if an event that the old connection still delivers lists a level for it.
- Bitfinex: a batch of book entries acts as its entries one by one exactly when it has more than
  three, or fewer than three whose last writes the tables hold already, where the pair of tables
  has to exist if one of them looks it up. Three entries are taken for one entry, and the accessor
  meets an array. Trade sums add the running amount times the price;
  with positive prices they equal the notional value exactly when a side has at most one trade, and
  the sums of two windows add up only if one of them has none.
- Bitmex: nothing makes `msgid` unique; it stays unique through a run exactly when each inserted
  id is fresh. The top-ten report can depend on the engine's choice among rows of equal price; it
  does not exactly when the rows of equal price on both sides of the limit are worth the same.
- Bitmex does not always store the numbers that a message carries. An insert rounds price and size
  to six decimals: it is exact if and only if both have no more, and off by at most half a millionth.
  An update passes its size through an `int`: it is exact if and only if the size is whole, and off
  by less than one; 1.5 is stored as 1.
- The bitmex trade window reports a zero sum as one, so reports add up to the totals exactly when
  no window has a zero sum on a side.
- Handshake: no acknowledgement is consumed twice. Each has completed a call or is pending exactly
  when none came while an earlier one was pending. Uses of the socket are safe in every run exactly
  for the protocols that set it before the flag; `exchange/binance.cpp` sets the flag first, and
  its caller can terminate an unset socket.
- A parameter string made of an empty map throws.

## Model

| member | source | states |
|---|---|---|
| Base64Codec.Base64Encode | utils/codec.cpp:22-63 | for every byte string the block encoder returns the encoding of section 4 of RFC 4648 |
| Base64Codec.SplitBlock | utils/codec.cpp:32-35 | the masks and shifts keep all 24 bits of a block in order: four groups of six have the bits of three bytes of eight |
| Base64Codec.AppendFullBlock | utils/codec.cpp:31-40 | appends the block's own encoding |
| Base64Codec.AppendLastBlock | utils/codec.cpp:43-59 | a last block of one or two bytes gets its own encoding, with zero bits and the right number of `=` |
| Base64Codec.Base64Decode | utils/codec.cpp:65-104 | for every text, truncated and malformed ones included, returns the complete bytes in the bits of the letters before the first other character |
| Base64Codec.JoinBlock | utils/codec.cpp:79-81 | of `i` looked-up letters the first `i-1` bytes hold all bits that fill bytes, whatever else, such as `npos`, the block contains |
| Base64Codec.LookUp | utils/codec.cpp:76-77 | replaces each letter by its place in the alphabet and each other character by the low byte of `npos` |
| Base64Codec.AppendBytes | utils/codec.cpp:89-101 | the bytes appended, with fewer than eight bits left over, have exactly the bits of the letters read |
| Base64Accumulator.Base64EncodeStr | utils/codec.cpp:107-123 | the accumulator returns the same encoding for an unbounded `int` and one that wraps at any width from 12 bits; `valb` stays in {-6, -4, -2} |
| Base64Accumulator.ShiftInBits | utils/codec.cpp:113 | shifting in new bits loses none of the pending ones if the wrapping `int` has room for both |
| Base64Accumulator.LastGroup | utils/codec.cpp:120 | the final shifts leave the pending bits, filled up with zeros to six |
| Base64Accumulator.PadToFour | utils/codec.cpp:121 | the loop on the length appends one `=` for each character missing |
| Base64Accumulator.CodeTable | utils/codec.cpp:130-131 | the table holds the place of every letter, and -1 for every other byte |
| Base64Accumulator.Base64DecodeStr | utils/codec.cpp:126-144 | for every text the accumulator returns what the block decoder returns, for an unbounded `int` and one that wraps; `valb` stays in {-8, -6, -4, -2} |
| Base64Spec.EncodeShape | utils/codec.cpp:43-59 | 4*ceil(n/3) characters: letters, then one `=` per byte missing from the last block |
| Base64Spec.Decode | utils/codec.cpp:126-144 | floor(3k/4) bytes from the longest prefix of k letters |
| Base64Spec.DecodeEncode | utils/codec.cpp:22-144 | decoding undoes encoding, for every byte string and any pair of encoder and decoder |
| Base64Spec.EncodeDecode | utils/codec.cpp:22-144 | re-encoding a decoded text gives the text if and only if it is canonical (sections 3.2 and 3.5 of RFC 4648) |
| Base64Spec.EncodeInjective | utils/codec.cpp:22-63 | different byte strings have different encodings |
| Base64Spec.EncodeImage | utils/codec.cpp:107-123 | the encodings are exactly the canonical texts |
| Base64Spec.EncodeAppend | utils/codec.cpp:31-41 | whole blocks of three bytes are encoded on their own, so encodings of pieces can be joined |
| Base64Spec.DecodeStops | utils/codec.cpp:73 | what follows a character outside the alphabet does not change the result |
| Base64Alphabet.LetterInAlphabet | utils/codec.cpp:11-14 | the letters are the 64 characters of `base64_chars`, written out, in that order |
| Base64Alphabet.LetterOccurs | utils/codec.cpp:76-77 | a character is a letter if and only if it occurs in `base64_chars`, and its code is where; for others the looked-up byte is 255 |
| Base64Alphabet.EncodeAt | utils/codec.cpp:107-123 | character `k` of an encoding is the one that `base64_chars` has at the place given by six bits of the filled input, and `=` after the last of them |
| Base64Alphabet.EncodeThree | utils/codec.cpp:32-38 | the four characters for any three bytes, by quotients and remainders |
| Base64Alphabet.EncodeTwo | utils/codec.cpp:43-57 | the three characters and one `=` for two bytes at the end |
| Base64Alphabet.EncodeOne | utils/codec.cpp:43-57 | the two characters and two `=` for one byte at the end |
| Base64Alphabet.DecodeFour | utils/codec.cpp:76-84 | four characters of `base64_chars` become three bytes computed from their places, before the decoding of whatever follows |
| Base64Alphabet.DecodeTail | utils/codec.cpp:89-101 | up to three characters, at the end or before one outside `base64_chars`, become one byte fewer |
| Base64Accumulator.StoredInt | utils/codec.cpp:111-113 | a 32-bit `int` holds the one value in its range that is equal modulo 2^32 |
| UrlCodec.EscapeURL | utils/codec.cpp:203-230 | the loop over signed characters escapes every byte except letters, digits, `/` and `.` as two hex digits of its unsigned value |
| UrlCodec.DeescapeURL | utils/codec.cpp:232-248 | every text is decoded character by character and escape by escape, including escapes cut short by the terminating NUL and digits that are none |
| UrlCodec.UndefinedExactly | utils/codec.cpp:240-241 | decoding reads past the terminating NUL if and only if the last character is a `%` at which an escape starts |
| UrlCodec.TrailingPercent | utils/codec.cpp:239-245 | a text for which it does, and two that end in `%` for which it does not |
| UrlCodec.HexPairOfByte | utils/codec.cpp:176-201 | reading both hex digits of a byte gives the byte |
| UrlCodec.DeescapeEscape | utils/codec.cpp:203-248 | decoding undoes `escapeURL` for every byte string and never reads past the end |
| UrlCodec.EscapeIsEscaped | utils/codec.cpp:203-230 | everything `escapeURL` writes consists of copied characters and upper-case escapes of the others, two digits after each `%` |
| UrlCodec.EscapeDeescape | utils/codec.cpp:203-248 | escaping a decoded text gives the text if and only if `escapeURL` could have written it; these texts are exactly the image of `escapeURL` |
| UrlCodec.UrlEncode | utils/codec.cpp:149-173 | encodes the bytes before the first NUL, each as `isalnum`, `%X` and the test against 16 determine |
| UrlCodec.DeescapeUrlEncode | utils/codec.cpp:149-173 | decoding undoes `urlEncode` if and only if all bytes are in 1..127 |
| UrlCodec.SameText | utils/codec.cpp:149-248 | on those strings both percent-encoders decode to the same text |
| UrlCodec.UrlEncodedHigh | utils/codec.cpp:164-169 | a byte above 127 is written as `%0FFFFFF` and its two digits |
| UrlCodec.UrlEncodeCollision | utils/codec.cpp:164-169 | so each such byte has the same encoding as another, longer string |
| UrlCodec.UrlEncodedAlphabet | utils/codec.cpp:162-170 | only unreserved characters and `%` are ever written |
| UrlCodec.EscapeOne | utils/codec.cpp:208-227 | which characters `escapeURL` copies, and the `%` and two upper-case digits for each other byte |
| UrlCodec.UrlEncodeOne | utils/codec.cpp:162-170 | the same for `urlEncode`, with `%0FFFFFF` and two digits for each byte above 127 |
| UrlCodec.HexDigitIs | utils/codec.cpp:188-201 | digits are read in upper and lower case; any other character counts as -1 |
| UrlCodec.DeescapePercent | utils/codec.cpp:240-244 | a `%` and two characters, hex digits or not, become one byte; after one character the NUL is taken for the second |
| SmtpMail.Mail.AppendAttachment | utils/SmtpMail.cpp:258-269 | the loop appends the encoding of each 54-byte piece of the file, in order, one to a line, and nothing else |
| SmtpMail.BodyOfLong | utils/SmtpMail.cpp:263-269 | the first 54 bytes of a longer file make a line of their own, ended by carriage return and line feed; what follows is the text for the other bytes |
| SmtpMail.BodyOfShort | utils/SmtpMail.cpp:263-269 | a file of less than 54 bytes, even an empty one, is one line |
| SmtpMail.ReadFile | utils/SmtpMail.cpp:266 | a read gets the next bytes of the file, as many as are asked for and there |
| SmtpMail.ChunkingIsTransparent | utils/SmtpMail.cpp:263-269 | the lines put together are `base64_encode` of the whole file, for every length |
| SmtpMail.LineLengths | utils/SmtpMail.cpp:263-269 | all lines but the last have 72 characters, none has more than the 76 of section 6.8 of RFC 2045; the last is empty if and only if the length is a multiple of 54 |
| SmtpMail.AttachmentRoundTrip | utils/SmtpMail.cpp:258-269 | skipping line breaks and decoding gives back every file |
| SmtpMail.FirstLineOnly | utils/SmtpMail.cpp:258-269 | the repository's own decoders stop at the first line break and return the first 54 bytes only |
| SmtpMail.FirstLineSuffices | utils/SmtpMail.cpp:258-269 | so they recover a file if and only if it has at most 54 bytes |
| Ordered.InOrderUnique | utils/misc.cpp:175 | there is only one order in which the iterator can walk a map's keys |
| QueryString.BeforeIsOrder | utils/misc.cpp:171-175 | the comparison of string keys is a strict total order |
| QueryString.BeforeIs | utils/misc.cpp:171-175 | keys are ordered by the first byte in which they differ; a key comes before its continuations |
| QueryString.Separators | exchange/huobipro.cpp:108 | the separators are `&` and `=`, and the digest's parameter is named `Signature` |
| QueryString.SmallestFirst | utils/misc.cpp:175-182 | the string starts with the smallest key, `=` and its value; `&` and the string of the other parameters follow, if there are any |
| QueryString.ParmmapToParmstr | utils/misc.cpp:171-184 | appending `key=value&` and erasing the last character joins the entries in key order; an empty map is an error |
| QueryString.PairsOfJoined | utils/misc.cpp:171-184 | splitting at `&` and then at the first `=` recovers the parameters if and only if no key has `=` or `&` and no value has `&` |
| QueryString.ParmStrInjective | utils/misc.cpp:171-184 | under that condition different maps give different parameter strings |
| QueryString.UrlEncodedIsClean | utils/codec.cpp:149-173 | a value from `urlEncode` meets the condition, whatever its bytes |
| QueryString.SignedQueryRecovered | exchange/huobipro.cpp:99-108 | from the signed query a receiver recovers every parameter in order and the digest |
| LevelBook.ApplyAt | exchange/okex.cpp:266-294 | after a list of levels each price holds the last amount listed for it, is absent if that is zero, and is unchanged if not listed |
| LevelBook.LastLevel | exchange/okex.cpp:268-278 | the last level listed for a price sets its amount, or removes it if the amount is zero; unlisted prices keep theirs |
| LevelBook.ApplyAppend | exchange/okex.cpp:268-278 | two lists in turn act as their concatenation |
| LevelBook.ApplyTwice | exchange/okex.cpp:268-278 | applying a list again changes nothing |
| LevelBook.SameLastWrites | exchange/okex.cpp:268-278 | lists with the same last word on each price have the same effect |
| LevelBook.ApplyChangesNothing | exchange/okex.cpp:268-278 | a list changes nothing if and only if its last word on each price holds already |
| LevelBook.ApplyKeepsNoZeros | exchange/binance.cpp:394-415 | no diff stores a zero amount |
| LevelBook.SidesIndependent | exchange/binance.cpp:385-418 | bids and asks may be applied in either order, each as if alone, and other symbols' tables stay as they are |
| Okex.Exchange.ParsePriceamountToMap | exchange/okex.cpp:264-295 | the two loops apply the listed levels of both sides to the symbol's tables; a missing or empty side creates nothing |
| Binance.Exchange.ParseSnapshotToMap | exchange/binance.cpp:321-360 | whatever was stored, the symbol then has exactly the snapshot's levels and number, or is empty if the answer is no object; `prev_u` is arbitrary |
| Binance.Exchange.StoreBids | exchange/binance.cpp:336-344 | stores the levels in order, zero amounts included |
| Binance.Exchange.StoreAsks | exchange/binance.cpp:346-354 | the same for the asks |
| Binance.Exchange.ParsePriceamountToMap | exchange/binance.cpp:363-418 | is the replica's step on one event for this symbol, dropping older ones, and leaves every other symbol's replica unchanged; creates the symbol's table only for an event that lists a level |
| Binance.Exchange.SubscribeDepth | exchange/binance.cpp:247-262 | whatever events the old connection still delivers, the symbol's replica is the snapshot when the stream reopens, for exactly the symbols that have a table then; the others have taken the late events and no more |
| Binance.Exchange.CancelSubscribeDepth | exchange/binance.cpp:265-281 | forgets all of the symbol, and only it, but for late events; it comes back if and only if one of those lists a level; the stream then carries exactly the symbols that have a table, or is closed |
| Binance.Exchange.Follow | exchange/binance.cpp:178-202 | over any stream of events of many symbols each replica takes exactly the steps of its own events, and tables are created exactly for symbols with an event that is not dropped and lists a level |
| Binance.Exchange.SubscribeAndFollow | exchange/binance.cpp:247-418 | a subscription and any stream of events, gap-free for the symbol, leave a submap of the server's book on both sides, and every other replica with its own run |
| BinanceFeed.SideStep | exchange/binance.cpp:385-401 | an event that leaves no gap takes one side of the replica from tracking update `n` to tracking update `last` |
| BinanceFeed.LoadedShows | exchange/binance.cpp:336-354 | a loaded snapshot has for each of its prices the amount listed last, zero or not, and no other price |
| BinanceFeed.ReplicaTracks | exchange/binance.cpp:321-418 | over any run of a gap-free feed the replica is right on every price of the snapshot or touched since, and shows no other; elsewhere the server has changed nothing |
| BinanceFeed.ReplicaIsSubmap | exchange/binance.cpp:258-259 | with a snapshot of any depth the replica is a submap of the server's book at the last applied update |
| BinanceFeed.ReplicaIsBook | exchange/binance.cpp:321-418 | with a complete snapshot it is the server's book |
| BinanceFeed.ReplayedEvent | exchange/binance.cpp:367-370 | an event that ends with the snapshot's own update changes nothing if and only if each amount it sets is on a price that the snapshot shows |
| BinanceFeed.ReplayedOnComplete | exchange/binance.cpp:367-370 | on a complete snapshot that is always so |
| BinanceFeed.ReplayedEventAddsLevel | exchange/binance.cpp:258-370 | a valid log, depth-limited snapshot and event where it is not |
| BinanceFeed.ReplicaShows | exchange/binance.cpp:363-418 | after any valid events, with any gaps, the replica has for each known price what the server had at the update that it was written at, and no other price |
| BinanceFeed.SubmapAfterGaps | exchange/binance.cpp:371-376 | so it is a submap of the server's book if and only if each known price that the server had when it was written stands at the server as it did then |
| BinanceFeed.EventAt | exchange/binance.cpp:385-401 | an event gives a listed price the server's amount after its last update; any other price keeps its amount, at the client and, from the event's first update to its last, at the server |
| BinanceFeed.GapSide | exchange/binance.cpp:371-376 | one side that tracked the server, after an event that skips updates, is a submap of the server's side if and only if no price that it keeps changed in the missing ones |
| BinanceFeed.SubmapAfterGap | exchange/binance.cpp:321-418 | the same for either side of the replica after any gap-free run |
| BinanceFeed.GapBreaksReplica | exchange/binance.cpp:371-376 | an instance where it did: the gap is not refused, and the replica shows a level that the server does not have |
| Bitfinex.Exchange.OnMessage | exchange/bitfinex.cpp:182-294 | every message is routed by its channel id and changes only what its channel owns; false exactly where an accessor aborts |
| Bitfinex.RunDescribed | exchange/bitfinex.cpp:191-294 | over every run: the channel ids are those of the last answers, the tables hold the entries that came under the book id of their time, the totals the trades under the trade id, and other data has no effect; a run aborts if and only if a message is misread |
| Bitfinex.MessageEffect | exchange/bitfinex.cpp:191-294 | the same for one message |
| Bitfinex.AnswersRoute | exchange/bitfinex.cpp:194-210 | after answers for both channels, book data is stored and a trade counted, from any state before |
| Bitfinex.Exchange.OnTradeData | exchange/bitfinex.cpp:217-246 | counts a `te` trade or each trade of a snapshot with more than one, and nothing else |
| Bitfinex.Exchange.OnBookData | exchange/bitfinex.cpp:247-292 | stores a single entry, or every entry of a batch of more than three |
| Bitfinex.Exchange.CountTrade | exchange/bitfinex.cpp:224-230 | adds the running amount times the price on the side that the sign names |
| Bitfinex.TradeEffect | exchange/bitfinex.cpp:224-230 | positive amounts are added to the bids and negative ones, made positive, to the asks; each multiplies the amount so far by its price |
| Bitfinex.Exchange.StoreEntry | exchange/bitfinex.cpp:254-268 | sets a level on the side of its sign, or deletes one on the side that the amount 1 or -1 names |
| Bitfinex.EntryEffect | exchange/bitfinex.cpp:254-268 | what an entry does to the two tables of tBTCUSD in each of the five cases of count and amount |
| Bitfinex.Exchange.BookReport | main.cpp:293-321 | the ratios are those of the sums over the seventeen highest prices of each side, and the sums restart at zero; looking the tables up creates an empty pair if there is none |
| Bitfinex.ReportOfNothing | main.cpp:294-314 | a side without prices sums to zero |
| Bitfinex.ReportOfFew | main.cpp:294-314 | with at most seventeen prices each one adds its price times its amount |
| Bitfinex.ReportOfMany | main.cpp:299-301 | a price with seventeen or more above it adds nothing |
| Bitfinex.RunSigned | exchange/bitfinex.cpp:247-292 | over every run of messages bids stay positive and asks negative, and prices keep their sign |
| Bitfinex.RatiosNegative | main.cpp:294-319 | with positive prices and both sides filled neither sum is zero and both ratios are negative |
| Bitfinex.ReportAfterRun | main.cpp:294-319 | so it is after every run from empty tables |
| Bitfinex.RunSingles | exchange/bitfinex.cpp:249-268 | a run of single messages applies its entries in order |
| Bitfinex.EntriesApply | exchange/bitfinex.cpp:254-289 | entries act on both sides as two level lists do, a deletion as amount zero, and create tables if and only if one of them looks them up |
| Bitfinex.EntriesAt | exchange/bitfinex.cpp:254-289 | after entries each price of a side holds what the last entry for it there says |
| Bitfinex.EntriesChangeNothing | exchange/bitfinex.cpp:254-289 | entries change nothing if and only if the tables hold each last write already and exist if any entry looks them up |
| Bitfinex.BatchAsSingles | exchange/bitfinex.cpp:249-291 | a batch has the effect of its entries one by one if and only if it has more than three, or fewer than three whose last writes the tables hold already, and the pair of tables exists if one of them looks it up |
| Bitfinex.TradeSums | exchange/bitfinex.cpp:224-230 | from a reset the amount is the traded volume, and the sum is the notional value plus each price times the volume traded before |
| Bitfinex.SumsAtLeastNotional | exchange/bitfinex.cpp:224-230 | with prices that are not negative the sum is at least the notional value |
| Bitfinex.SumIsNotional | exchange/bitfinex.cpp:224-230 | with positive prices it is the notional value if and only if the side has at most one trade |
| Bitfinex.Exchange.TradeReport | main.cpp:341-346 | the ratios are those of the window's sums, and all four counters restart at zero, nothing else changing |
| Bitfinex.SumFrom | exchange/bitfinex.cpp:224-230 | trades that do not follow a reset add, besides their own sum, the amount before them times their prices |
| Bitfinex.ResetLoses | main.cpp:343-346 | a reset between two windows loses the first one's volume times the second one's prices; the sums add up if and only if one of these is zero |
| Bitfinex.AnnouncedOnce | exchange/bitfinex.cpp:218-231 | trades sent both as `te` and as `tu` are counted once |
| TradeTotals.Monitor.ParseTradedetailBitmex | exchange/bitmex.cpp:245-261 | adds the volume and the notional value of the message's buys and sells; other sides are skipped |
| TradeTotals.Monitor.ParseTradedetailHuobi | exchange/huobipro.cpp:310-329 | the same, with everything that is not a sell counted as a buy |
| TradeTotals.Monitor.EndWindow | main.cpp:185-209 | reports the totals with zero sums replaced by one, so that both ratios are defined, and restarts from zero |
| TradeTotals.ContributionAppend | exchange/bitmex.cpp:245-261 | how trades are divided over messages does not matter |
| TradeTotals.OneTrade | exchange/bitmex.cpp:252-258 | which names of sides count as bought and sold, for bitmex and for huobi, and what one trade adds |
| TradeTotals.TotalsAddUp | main.cpp:206-209 | the totals of consecutive windows add up to those of all trades; a reset loses nothing |
| TradeTotals.WindowsAddUp | main.cpp:185-209 | the sums that bitmextrade reports add up to the totals of all trades plus one for each window with a zero sum, side by side |
| TradeTotals.WindowsExact | main.cpp:188-193 | they add up exactly if and only if no window has a zero sum |
| TradeTotals.Monitor.RunHuobi | exchange/huobipro.cpp:310-329 | over any sequence of messages huobi's counters grow by the volume and notional value of all their trades |
| TradeTotals.Monitor.RunWindow | main.cpp:176-209 | whatever messages a window's trades come in, its report is made of their totals, from where the counters stood |
| TradeTotals.Monitor.RunWindows | main.cpp:176-218 | running windows of messages on one monitor reports exactly what the two statements above are about |
| Bitmex.Exchange.InitTable | exchange/bitmex.cpp:428-448 | whatever was stored, the four tables then exist without any level and with unique ids: where every run starts |
| Bitmex.Exchange.InsertPrice | exchange/bitmex.cpp:350-360 | adds a row, price and amount rounded to six decimals, to an existing table without looking at the ids there |
| Bitmex.SixDecimalsError | exchange/bitmex.cpp:353 | rounding is off by at most half a millionth, and exact if and only if the number has no more than six decimals |
| Bitmex.HalfwayToEven | exchange/bitmex.cpp:353 | halfway between two numbers of six decimals the one with the even last digit is stored |
| Bitmex.TruncError | exchange/bitmex.cpp:272-274 | passing a size through the `int` parameter takes it towards zero, is off by less than one, and exact if and only if the size is whole |
| Bitmex.StoredExactly | exchange/bitmex.cpp:265-310 | an item's statement stores the numbers it carries if and only if, for an update, the size is whole, and for an insert or partial, price and size have at most six decimals |
| Bitmex.UpdateTruncates | exchange/bitmex.cpp:272-274 | an update to 1.5 stores 1, although 1.5 has few decimals |
| Bitmex.Exchange.DeletePrice | exchange/bitmex.cpp:362-371 | removes all rows with the id, in that table only |
| Bitmex.Exchange.UpdatePrice | exchange/bitmex.cpp:374-383 | sets the amount of all rows with the id, in that table only |
| Bitmex.Exchange.ParsePriceamountToMap | exchange/bitmex.cpp:263-312 | runs the message's statements in order, none for other actions; the next seven rows say what that does |
| BitmexMessages.MessageDecides | exchange/bitmex.cpp:263-312 | the last item about an id in the table `symbol + side` removes it, sets its rounded price and size, or, if it is there, sets its truncated size at its old price |
| BitmexMessages.MessageKeeps | exchange/bitmex.cpp:263-312 | levels that no item is about stay as they are |
| BitmexMessages.OtherTablesKept | exchange/bitmex.cpp:263-312 | no table is created or dropped, and those that no item is about keep their rows |
| BitmexMessages.DeleteMessage | exchange/bitmex.cpp:288-297 | a delete message removes exactly the rows that have an item's id in that item's table |
| BitmexMessages.InsertMessage | exchange/bitmex.cpp:276-287 | an insert or partial message appends its rounded rows to their tables in order and changes no other row |
| BitmexMessages.UpdateMessage | exchange/bitmex.cpp:265-275 | an update message sets the amount of every row with an id it names to the truncated size in the last item about it, and changes no other row |
| Bitmex.OpsMean | exchange/bitmex.cpp:263-312 | the statements of a message act on levels as its items mean |
| Bitmex.Exchange.SelectBidamount | exchange/bitmex.cpp:395-401 | the field becomes the worth of the ten rows that come first in the engine's order by descending price; without a table it keeps its value, and an empty table is an error |
| Bitmex.Exchange.SelectAskamount | exchange/bitmex.cpp:403-409 | the same for ascending prices |
| Bitmex.OrderedByPrice | exchange/bitmex.cpp:398-406 | the orders are those with falling prices for bids and rising ones for asks |
| Bitmex.SumOfTen | exchange/bitmex.cpp:398-406 | from ten rows on the sum is over the first ten and no more |
| Bitmex.SumOfRow | exchange/bitmex.cpp:398-406 | a row counts with its price times a hundredth of its amount |
| Bitmex.Exchange.ClearTableData | exchange/bitmex.cpp:420-425 | is one more statement of the runs below: it refines forgetting all levels of one table and keeps ids unique |
| Bitmex.ChangedRefines | exchange/bitmex.cpp:350-383 | each statement acts on the row list as it should act on a map from ids to levels, duplicates or not |
| Bitmex.RunRefines | exchange/bitmex.cpp:263-312 | over every run of statements each table refines such a map |
| Bitmex.OtherTables | exchange/bitmex.cpp:263-312 | statements for one symbol and side leave the other tables unchanged |
| Bitmex.UniqueIffFresh | exchange/bitmex.cpp:350-360 | ids stay unique in all tables throughout a run if and only if every inserted id is fresh |
| Bitmex.PartialIsFresh | exchange/bitmex.cpp:298-310 | a `partial` on empty tables is fresh if its own ids are distinct |
| Bitmex.MessagesKeepUnique | exchange/bitmex.cpp:263-312 | over every run of messages whose inserts are fresh where they arrive, ids are unique in each table |
| Bitmex.Exchange.FollowBook | exchange/bitmex.cpp:202-234 | from the creation of the tables, any run of messages leaves each table with the levels that the messages' items mean; ids are unique throughout if and only if every insert is fresh |
| Bitmex.SameRows | exchange/bitmex.cpp:350-383 | tables with unique ids and the same levels hold the same rows |
| Bitmex.ReportDetermined | exchange/bitmex.cpp:395-409 | the top-ten sum is the same for every order the engine may choose if and only if rows of equal price on both sides of the limit are worth the same |
| Bitmex.ReportIndependentOfHistory | exchange/bitmex.cpp:395-409 | tables with the same levels report the same sum, under that condition, which distinct prices imply |
| Bitmex.RunsReportAlike | exchange/bitmex.cpp:263-409 | any two runs that lead to the same levels give the same report |
| Bitmex.ReportOfSmallTable | exchange/bitmex.cpp:395-409 | with at most ten rows the report is the sum over the whole table |
| Bitmex.OrderingExists | exchange/bitmex.cpp:398-406 | an order by price always exists, so the statements about orders are not empty |
| Handshake.MutexStep | exchange/huobipro.cpp:274-278 | every step of any thread keeps mutual exclusion, the flag of a thread that passed the test, and the balance of acknowledgements |
| Handshake.GuardedRuns | exchange/huobipro.cpp:266-293 | in every interleaving each acknowledgement was used by one subscribe call, is pending, or was overwritten; completed calls never exceed acknowledgements |
| Handshake.ReturnsNeedAcks | exchange/huobipro.cpp:266-293 | in every interleaving, counted on the actions alone, the calls that have returned are at most as many as the acknowledgements received |
| Handshake.ReturnsStep | exchange/huobipro.cpp:276-278 | no step lets a call return that has not reset the flag |
| Handshake.SocketRuns | exchange/huobipro.cpp:250-259 | in every interleaving neither a send after `start_stream` nor a termination guarded by the flag uses an unset socket |
| Handshake.UsesFollowSetting | exchange/huobipro.cpp:171-172 | in every run the socket is set before each send and each guarded termination |
| Handshake.SourceRuns | exchange/bitmex.cpp:78-109 | both hold for the protocol that huobipro and bitmex follow |
| Handshake.UnguardedRunExists | exchange/huobipro.cpp:274-278 | if the mutex were released between test and reset, a run would use one acknowledgement twice |
| Handshake.FlagFirstRunExists | exchange/binance.cpp:215-253 | with the flag set before the socket, a subscribe call that tests the flag terminates an unset socket |
| Handshake.OverwrittenIffLost | exchange/huobipro.cpp:213-218 | over every run acknowledgements are overwritten if and only if one came while an earlier one was pending |
| Handshake.AcksCompleteCalls | exchange/huobipro.cpp:213-293 | so each acknowledgement has completed a call or is pending if and only if none did |
| Handshake.AckOverwritten | exchange/huobipro.cpp:213-218 | a run in which one did: two acknowledgements complete one call and another keeps waiting |

## Left out

- Base64Codec.Base64Encode: texts of 2^31 characters and more, where the `int` counters overflow; the decoder's `in_len` likewise.
- Base64Accumulator.Base64EncodeStr: before C++20 a signed shift that overflows is undefined; the model takes it to wrap, as compilers do.
- UrlCodec.UrlEncode: `isalnum` is taken in the C locale and false for negative values, `%X` is taken to print 32 bits.
- SmtpMail.Mail.AppendAttachment: mail headers, boundaries and files that cannot be opened or that change while they are read.
- QueryString.SignedQueryRecovered: the digest is arbitrary; SHA, HMAC and the values of the parameters are not part of this model.
- Binance.Exchange.SubscribeDepth: late events are taken between the termination and the snapshot; the old connection's thread clearing the flag after the new one has set it, and two open connections after that. Since the snapshot is fetched before the stream starts, nothing in the code brings about that the first event follows it.
- Binance.Exchange.CancelSubscribeDepth: the same; and events handled by the other thread in the middle of erasing.
- Binance.Exchange.ParseSnapshotToMap: an object without the expected members, which aborts.
- BinanceFeed.ReplicaTracks: that the exchange's feed has no gaps is a hypothesis; prices and amounts are numbers already, so equal texts of a price cannot differ.
- Bitfinex.Exchange.OnMessage: reports and messages run one at a time, whereas the original's threads share the tables without a lock; shapes of a message that the exchange does not send (arrays of mixed elements) are not distinguished.
- Bitfinex.Exchange.BookReport: the ratio of a zero sum, infinite or not a number in `double`, is undefined here.
- TradeTotals.Monitor.EndWindow: the text of the report and its six decimals; the first window's initial counters.
- Bitmex.Exchange.UpdatePrice: an amount that does not fit in an `int`; ids are unbounded, where the source has a `long`.
- Bitmex.Exchange.SelectBidamount: the engine beyond the statement shapes that the code uses; the order in which it walks rows of equal price is a parameter.
- Handshake.SourceRuns: only safety is claimed; the flags are set without the mutex, so a wake-up can be lost, and an overwritten acknowledgement leaves a call waiting. Disconnections are not modelled.
- Rounding of `double`, `stod` and JSON parsing.
- `b2a_hex`, `SetFileName` and `profitcalc`: they would only add easy members.
- Hashing, HMAC and gzip: the work is done in libraries.
- Websocket hubs, curl requests, SMTP sending, message forwarding, console output and sleeping loops.
- The stub exchanges, the handlers that only print, and the methods that place orders.
- The copies of the diff loop in `exchange/exg58coin.cpp`, `exchange/gateio.cpp` and `exchange/poloniex.cpp`, which add nothing to the one modelled.
