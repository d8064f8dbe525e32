# A Dafny model of the MikroTik exporter

The exporter scrapes MikroTik devices over the RouterOS API and hands the values to Prometheus. This project models
the parts of it in which something can go wrong silently, and proves what they promise for every input, every run
and every interleaving:

- **The wire protocol.** A command is a sentence of words, each behind a one- to five-byte length code, ended by an
  empty word. `LengthCode`, `Words`, `Sentences` and `SentenceStreams` say what a byte stream means; `Reader` and
  `Writer` are the imperative ends of a connection, proved against that meaning. The main results are the round trip of
  any list of sentences in front of any bytes, that no cut sentence is ever read as a sentence, that a read depends only
  on the bytes it consumes, and that rewriting what was read normalises it.
- **Replies and sessions.** `Replies` folds sentences into a reply and shows that the first ending sentence decides
  it; `Sessions` shows that k commands get their own k answers, in order, whatever traps and characters they contain,
  and exactly when a session stays in step; `Answers` says it in the protocol's own words, tags and attributes; `Client`
  is the client with its login, `CloseProtocol` its close under concurrent calls.
- **Concurrent commands.** `WriterProtocol` interleaves any number of threads at every single write, with partial
  hand-overs and latched errors; `Heard` and `Delivery` add the device's end: what it can read is always a beginning of
  the list of commands in lock order, each whole, and exactly the commands so far when one returns nil. Commands are any
  words, such as the query words of `internal/collectors/interface_collector.go:54`, which the client itself would not
  read.
- **Durations.** `Durations` is the tokenising loop with wrapping int64 arithmetic. `DurationGrammar` states its
  language as a grammar that does not tokenise, proves that exactly that language is accepted, in one way only, and
  that the result is the exact sum wherever the sum fits.
- **Scrapes.** `CircuitBreaker`, `DeviceCollector` and `DeviceRuns` follow one device over any run of scrapes: which
  collectors run, what the error says, what the error counter shows and which connections are open. `FanOut` resolves
  the devices of one scrape and joins their goroutines, panics included.
- **Configuration.** `Configuration` loads a decoded configuration and resolves a device's features, also under shared
  and empty names; `Collectors` turns them into collectors and says exactly when none of them is nil.

Streams are sequences of bytes with an end-of-stream error; the network, the clock and the devices are parameters,
scripts or nondeterministic choices. `dfyconfig.toml` lists the files for `dafny verify dfyconfig.toml`.

What the code does that a reader may not expect:

- Lengths from 2^32 on are written modulo 2^32, so a word reads back exactly when it is shorter
  (`Words.WordRoundTrip`).
- A bare length byte from 0xF8 on stands for itself and is the one form that is shorter than what the writer would
  send (`LengthCode.Shortest`).
- `ErrLoginNoRet` is never returned, although the code has a branch for it (`Client.LoginOutcome`).
- A service-defined device whose identity lookup fails keeps its connection open. `DeviceRuns.LostConnection` is a
  scrape that does; `DeviceRuns.NothingLeftOpen` says that nothing is left open exactly when no scrape of a run does.
- A configuration file's feature keys are checked in lower case but looked up as written. `Collectors.CapitalKey` is an
  accepted file whose device gets a nil collector; `Collectors.NilFreeLoad` and `Collectors.CollectorsOf` give the exact
  condition on the file.
- Two devices with one name share the features of the first one. `Configuration.SharedName` is an accepted file whose
  second device does not get what it asks for; `Collectors.GetsWhatItAsks` gives the exact condition on the file.
- A second `Close` can return before the first one has closed the connection (`CloseProtocol.ReturnsEarly`); a call that
  returns finds it closed exactly when no other thread is on its way to closing it (`CloseProtocol.ClosedAtReturn`).
- A command with an empty word is heard as several commands, and only such a command is (`Heard.HeardAsGiven`).
- The comment on `collect` promises the number of failed collectors as well; the code returns an error only.

## Model

| member | source | states |
|---|---|---|
| `LengthCode.BitOperations` | routeros/proto/reader.go:85-97 | for every byte, the masked comparisons and complemented masks of the length code are the quotients, remainders and additions the model uses |
| `LengthCode.LengthRoundTrip` | routeros/proto/writer.go:71-84 | every length, written in front of any bytes, is read back modulo 2^32, and exactly those bytes are left |
| `LengthCode.CodeInFront` | routeros/proto/writer.go:81-82 | a length reads back as itself if and only if it is below 2^32 |
| `LengthCode.LengthLocal` | routeros/proto/reader.go:75-110 | a decoded length depends on the bytes of its code only |
| `LengthCode.PrefixFree` | routeros/proto/writer.go:71-84 | equal streams start with codes of the same length modulo 2^32 and go on equally: the code is injective and prefix-free |
| `LengthCode.FormBounds` | routeros/proto/reader.go:83-107 | a form below 0xF8 is never too short for the value it carries; from 0xF8 on one byte stands for itself |
| `LengthCode.Shortest` | routeros/proto/writer.go:71-84 | no accepted code is shorter than the writer's, except exactly the bare bytes from 0xF8 on, which are one byte shorter |
| `LengthCode.Canonical` | routeros/proto/writer.go:71-84 | an accepted code with a first byte up to 0xF0 has the writer's size if and only if it is the writer's code, byte for byte |
| `LengthCode.CodeIsNumber` | routeros/proto/writer.go:71-84 | a code is the big-endian number length plus mark (0x8000, 0xC00000, 0xE0000000 or 0xF000000000) in the size the length needs; the reader takes the mark off, and after 0xF1 to 0xF7 reads the next four bytes |
| `Words.DecodeAscii` | routeros/proto/reader.go:123-128 | decoding leaves ASCII text alone, makes no ASCII text out of other text, and never shortens |
| `Words.DecodeEach` | routeros/proto/reader.go:123-128 | every byte becomes what the code page says, in its place |
| `Words.TakeWordOk` | routeros/proto/reader.go:112-131 | a word is read if and only if its code and all its bytes are there; otherwise everything is consumed and the error is the stream's |
| `Words.ShortRead` | routeros/proto/reader.go:67-121 | an incomplete word gives the stream's error, except that an end of stream in the middle of a read is an unexpected one |
| `Words.WordLocal` | routeros/proto/reader.go:112-131 | where a word ends is decided by the bytes up to its end |
| `Words.TakeWordLocal` | routeros/proto/reader.go:112-131 | two streams sharing a word's bytes give the same word and leave their own rest |
| `Words.WordRoundTrip` | routeros/proto/writer.go:44-49 | a written word is consumed exactly, and read as its decoded text, if and only if it is shorter than 2^32 bytes |
| `Words.RewrittenWord` | routeros/proto/writer.go:44-49 | writing a word of a length that was read takes no more bytes than it was read from, plus one for a bare length byte |
| `Sentences.FoldDescribes` | routeros/proto/reader.go:40-63 | word by word, exactly the legal word lists make a sentence, and it has their first word, last tag and last value of every key |
| `Sentences.DescribesUnique` | routeros/proto/sentence.go:10-15 | a word list describes one sentence only |
| `Sentences.IndexOf` | routeros/proto/reader.go:54 | the first separator, or the end |
| `Sentences.KeyAndValue` | routeros/proto/reader.go:54-57 | `=k=v` has key k and value v, without the separators, and `=k` has key k and an empty value |
| `Sentences.FoldItems` | routeros/proto/reader.go:41-61 | a reply word and any tags and attributes fold to the sentence in which later ones override earlier ones |
| `Sentences.ItemsDescribe` | routeros/proto/reader.go:41-61 | and that sentence is what their words describe |
| `SentenceStreams.TakeByWords` | routeros/proto/reader.go:28-65 | reading into a sentence is reading the words up to the empty one and folding them |
| `SentenceStreams.SentenceOfWords` | routeros/proto/reader.go:28-65 | a sentence is read if and only if complete legal words follow; it is the one they describe and the same bytes are left |
| `SentenceStreams.IllegalWord` | routeros/proto/reader.go:63 | the error names the first illegal word, and the rest of its own sentence stays unread |
| `SentenceStreams.WordsRoundTrip` | routeros/proto/writer.go:36-49 | the words of a written sentence read back decoded, whatever follows |
| `SentenceStreams.SentenceRoundTrip` | routeros/proto/reader.go:28-65 | a written sentence reads back, exactly, if and only if its decoded words are legal |
| `SentenceStreams.StreamRoundTrip` | routeros/proto/reader.go:28-131 | any number of sentences whose decoded words are legal, in front of any bytes, read back in order with word, last tag and last-wins map, decoded, and exactly those bytes are left |
| `SentenceStreams.AsciiStreamRoundTrip` | routeros/proto/reader.go:28-65 | sentences of ASCII words read back as these very words describe |
| `SentenceStreams.ReadLocal` | routeros/proto/reader.go:31-130 | a sentence or an illegal-word error depends on the n bytes consumed and on nothing else; any stream starting with them gives the same and consumes n |
| `SentenceStreams.Truncated` | routeros/proto/reader.go:31-130 | a stream cut anywhere inside a sentence gives an I/O error, never a sentence |
| `SentenceStreams.WrittenTruncated` | routeros/proto/writer.go:36-49 | no proper prefix of a written legal sentence reads as a sentence |
| `SentenceStreams.Normalised` | routeros/proto/reader.go:75-131 | whatever length forms ASCII words came in, writing and reading them again gives the same words, in no more bytes except one per bare length byte |
| `SentenceStreams.NormalisedStream` | routeros/proto/reader.go:28-131 | any number of sentences of ASCII words, written again, read as the same sentences in front of any bytes, in no more bytes except one per bare length byte |
| `SentenceStreams.RewrittenSize` | routeros/proto/writer.go:45-49 | the size bound of a rewritten sentence, and that its words can all be sent |
| `SentenceStreams.EncodeAppend` | routeros/proto/writer.go:36-49 | the bytes of two lists of sentences are the bytes of the joined list |
| `SentenceStreams.ShortWords` | routeros/proto/writer.go:36-49 | short words on the wire: a byte of length, the word, and a zero byte after the last one |
| `SentenceStreams.TakeSuffix` | routeros/proto/reader.go:31-64 | what a read leaves is the end of the stream; a decided read consumes something and an undecided one everything |
| `Reader.Reader.ReadBytes` | routeros/proto/reader.go:67-73 | fills the end of the buffer with the next bytes and leaves its beginning alone, or consumes what there is and reports the short read |
| `Reader.Reader.FillLength` | routeros/proto/reader.go:76-98 | succeeds if and only if the announced bytes are there, with the four-byte image of the length in the buffer |
| `Reader.ImageValue` | routeros/proto/reader.go:104-107 | folding the four bytes big-endian gives the length of the form |
| `Reader.Reader.ReadLength` | routeros/proto/reader.go:75-110 | the in-place reader takes exactly the specified length off the stream, errors included |
| `Reader.Reader.ReadWord` | routeros/proto/reader.go:112-131 | the in-place reader takes exactly the specified word |
| `Reader.Reader.ReadSentence` | routeros/proto/reader.go:28-65 | the reader's loop takes exactly the specified sentence, and terminates on every stream with the unread bytes as measure |
| `Reader.SplitAtEquals` | routeros/proto/reader.go:54 | two pieces around the first separator, or the text in one piece without any |
| `Writer.Writer.HandOver` | routeros/proto/writer.go:56-58 | the connection takes a prefix of the pending bytes, all that was asked for unless it reports an error, and the report is recorded |
| `Writer.Writer.Write` | routeros/proto/writer.go:61-69 | nothing after a latched error; else the bytes are accepted in order, or the connection reported an error, which is the one latched |
| `Writer.Writer.Flush` | routeros/proto/writer.go:51-59 | success hands over everything pending |
| `Writer.Writer.WriteWord` | routeros/proto/writer.go:44-49 | the length and the payload together count as one write of the encoded word |
| `Writer.Writer.EndSentence` | routeros/proto/writer.go:34-42 | the lock is released on every path; nil means every byte written is with the connection, an older error comes back unchanged with nothing sent |
| `Writer.WroteBoth` | routeros/proto/writer.go:61-69 | two writes in a row are a write of both pieces, whichever of them fails |
| `WriterProtocol.ScriptWrites` | routeros/run.go:11-22 | the operations of a command write exactly its encoded sentence, then flush, then return |
| `WriterProtocol.NextKeepsInv` | routeros/proto/writer.go:30-69 | every step of every thread keeps the account: sent, buffered and outstanding bytes are the commands begun, or an error occurred and a prefix of them was sent |
| `WriterProtocol.InvAlways` | routeros/proto/writer.go:30-69 | the account holds in every state of every interleaving |
| `WriterProtocol.SentIsPrefix` | routeros/run.go:11-27 | at every moment the bytes with the connection are a prefix of the commands in lock order |
| `WriterProtocol.NilMeansSent` | routeros/proto/writer.go:36-42 | when a command returns nil, the connection has exactly the commands begun before it and then all of it, its thread ran undisturbed since taking the lock, and the lock is free |
| `WriterProtocol.HolderBegan` | routeros/run.go:11-22 | since the holder took the lock every step was its own, and its command is the last in lock order |
| `WriterProtocol.ErrorLatched` | routeros/proto/writer.go:51-69 | after the first error not one byte is added, and every later return is that error |
| `WriterProtocol.ErrorReported` | routeros/proto/writer.go:51-69 | an error is latched if and only if the connection reported one, and every return gives its first report |
| `WriterProtocol.SentGrows` | routeros/proto/writer.go:61-69 | bytes taken stay taken and the lock order only grows |
| `WriterProtocol.OneInside` | routeros/proto/writer.go:30-32 | at most one thread is inside a command |
| `WriterProtocol.HeldStep` | routeros/proto/writer.go:36-42 | while the lock is held every step is its holder's and brings it closer to the release |
| `WriterProtocol.LockReleased` | routeros/proto/writer.go:36-42 | under every schedule and every failure a held lock is free after at most as many steps as its holder has operations left |
| `WriterProtocol.NeverStuck` | routeros/run.go:11-27 | in no reachable state is every thread blocked |
| `Replies.ReplyFrom` | routeros/reply.go:41-59 | from any answer and error collected so far, the loop's result is what the remaining sentences amount to |
| `Replies.ReplyDecided` | routeros/reply.go:36-79 | the first ending sentence decides: after `!done` all earlier `!re` in order, that `!done` and the last trap; after `!fatal` or an unknown word only its error; nothing after it is consumed |
| `Replies.ReplyShape` | routeros/reply.go:41-59 | on every finite stream the loop ends, with a complete answer or with the read error that came before one |
| `Replies.NilHasDone` | routeros/reply.go:36-79 | a nil error means there is a reply with a `!done` sentence |
| `Sessions.OneAnswer` | routeros/reply.go:36-79 | an answer of any decoded legal sentences, in front of any bytes: after `!done` the caller gets exactly its `!re` sentences in order, that `!done` and the last trap; after `!fatal` or an unknown word only an error with that sentence; those bytes are left |
| `Sessions.ReportsUnique` | routeros/reply.go:36-79 | what an answer says determines the outcome, record by record |
| `Sessions.SessionInStep` | routeros/run.go:11-27 | k answers, in whatever characters and however ended, give k replies in order, each with its own answer's sentences and no others; a trap never shifts a record into another reply |
| `Sessions.AnswerExactly` | routeros/reply.go:41-79 | whatever sentences are sent, a reply without read error leaves exactly the bytes after them unread if and only if they are legal and the last one, and no other, ends a reply |
| `Sessions.StaysInStep` | routeros/run.go:11-27 | k commands each consume their own answer and nothing else if and only if every answer is of that kind |
| `Sessions.AnswerContents` | routeros/reply.go:62-79 | after `!done`, as many records as the answer has `!re` sentences, and an error if and only if there is a trap |
| `Answers.AnswerByLines` | routeros/reply.go:36-79 | any `!re`, `!trap`, `!empty` and blank lines with any tags and attributes, and any last line, in front of any bytes, give exactly the records in order with their values, the `!done` sentence and the last trap, or the error of the last line; those bytes are left |
| `Answers.OutcomeReported` | routeros/reply.go:62-79 | that outcome is what the answer reports |
| `Answers.ReplyWords` | routeros/reply.go:64-72 | the reply words as text |
| `Client.Reply.ProcessSentence` | routeros/reply.go:62-79 | the fields after a sentence, whether the reply ends and its error are the specified effect |
| `Client.Client.Close` | routeros/client.go:99-112 | however often it is called, the connection is closed once |
| `CloseProtocol.NextKeeps` | routeros/client.go:100-111 | every operation of every concurrent call keeps the account of mutex, mark and duty to close |
| `CloseProtocol.InvAlways` | routeros/client.go:100-111 | the account holds in every state of every interleaving |
| `CloseProtocol.ClosedAtMostOnce` | routeros/client.go:100-111 | under every interleaving of calls the connection is never closed twice |
| `CloseProtocol.ClosedByThen` | routeros/client.go:100-111 | when no call is under way the connection is closed if and only if there was a call |
| `CloseProtocol.ClosedAtReturn` | routeros/client.go:103-111 | a call that returns finds the connection closed if and only if no other thread is between marking the client and closing it |
| `CloseProtocol.ReturnsEarly` | routeros/client.go:103-111 | a run in which a second call returns while the connection is still open |
| `Client.Client.ReadReply` | routeros/reply.go:36-60 | the loop gives the specified reply, error and unread bytes, nil reply included, and terminates |
| `Client.Client.RunArgs` | routeros/run.go:10-27 | the lock is free afterwards; a write error reads nothing and sends a prefix; otherwise the whole command is sent and the result is the next reply on the stream |
| `Client.Client.Login` | routeros/client.go:114-142 | unless a write fails, the commands sent, the error and the unread bytes are those of the login's course; the reply is never dereferenced as nil |
| `Client.LoginOutcome` | routeros/client.go:115-142 | two commands if and only if a challenge of complete hexadecimal bytes came back; success if and only if every command sent is answered without error; never `ErrLoginNoRet` |
| `Client.HexDecodes` | routeros/client.go:132-135 | a challenge decodes if and only if it has an even number of characters, all hexadecimal digits; two characters make a byte, the first counting sixteen times |
| `Client.HexRoundTrip` | routeros/client.go:132 | any bytes, printed in digits of either case, decode to themselves |
| `Client.ResponseReads` | routeros/client.go:144-151 | a response is lower-case text for a zero byte and the digest of zero, password and challenge in this order |
| `Client.LoginMeaning` | routeros/client.go:115-142 | the words of both commands, which answer decides the error, and which bytes stay unread, in each of the four cases |
| `Client.LoginChallenged` | routeros/client.go:115-142 | a device that sends a challenge and then accepts: the login succeeds and its second command answers exactly that challenge |
| `Client.ReplyErrors` | routeros/reply.go:41-79 | a reply's error comes from the stream or from the device's sentences |
| `Client.EncodeByWords` | routeros/run.go:11-22 | the words one by one and then the end mark are the encoded sentence |
| `Heard.ListsRoundTrip` | routeros/proto/writer.go:36-49 | any lists of non-empty words, query words included, are heard word by word in front of any bytes |
| `Heard.HeardEncode` | routeros/proto/writer.go:44-49 | commands with empty words are, on the wire, the sentences between those words |
| `Heard.HeardAsGiven` | routeros/run.go:11-22 | commands are heard as they were given if and only if none of their words is empty |
| `Heard.HeardPrefix` | routeros/run.go:11-22 | a beginning of the commands' bytes is heard as a beginning of their list, all of them as all of it with nothing left over |
| `Delivery.DeviceSeesCommands` | routeros/run.go:11-27 | whatever threads send, query words, other alphabets and empty words included, and whatever fails: what the device can read is a beginning of the list of commands in lock order, each whole and with its own words |
| `Delivery.NilMeansRead` | routeros/proto/writer.go:36-42 | when a command returns nil the device can read exactly the commands up to it, each with its own words, and nothing is left over |
| `Delivery.TruncatedAnswer` | routeros/reply.go:41-45 | an answer, in whatever characters and however ended, cut anywhere is a read error, never a shorter reply |
| `Delivery.TakeMore` | routeros/proto/reader.go:28-65 | bytes arriving later do not change the sentences already readable |
| `Delivery.NoAnswerInside` | routeros/reply.go:36-60 | no beginning of an answer's bytes holds a complete answer except all of it |
| `Durations.GetDurationParts` | internal/convert/converters.go:152-189 | a success leaves a strictly shorter rest, which is why the loops end |
| `Durations.MetricFromDuration` | internal/convert/converters.go:192-208 | the loop computes the specified total, or fails exactly when it has none |
| `Durations.UnixTimeFromDuration` | internal/convert/converters.go:292-309 | the whole seconds, rounded down, of now minus that total, with the one int64 that has no negation |
| `Durations.WrapFits` | internal/convert/converters.go:125-144 | wrapping gives an int64 congruent modulo 2^64, the number itself if and only if it fits |
| `Durations.WrapSum` | internal/convert/converters.go:203 | wrapping early or late makes no difference to a sum |
| `DurationGrammar.FirstTokens` | internal/convert/converters.go:152-189 | a value without letters, a label without digits, and a rest are taken apart as such |
| `DurationGrammar.Tokens` | internal/convert/converters.go:154-171 | every input with a letter splits in this way |
| `DurationGrammar.AtoiValue` | internal/convert/converters.go:181-184 | a value converts if and only if it is an optionally signed number within int64, to that number |
| `DurationGrammar.AdjustedAmount` | internal/convert/converters.go:124-147 | only the seven units are known; the amount is value times unit, wrapped |
| `DurationGrammar.TakesSegment` | internal/convert/converters.go:152-189 | a segment in front of any rest is taken off as a whole with its wrapped amount |
| `DurationGrammar.SumFrom` | internal/convert/converters.go:197-205 | from any running total, the loop over a rendering adds the exact sum, wrapped once |
| `DurationGrammar.TotalOfSegments` | internal/convert/converters.go:124-208 | the total is congruent to the exact sum of value times unit, and equal to it if and only if the sum fits int64, whatever overflowed on the way |
| `DurationGrammar.FindSegments` | internal/convert/converters.go:152-208 | whatever the loop accepts is the rendering of well-formed segments |
| `DurationGrammar.Accepts` | internal/convert/converters.go:116-208 | a string is accepted if and only if it is empty or segments value-unit, only the first signed or without value |
| `DurationGrammar.UniqueSegments` | internal/convert/converters.go:152-189 | the segments of an accepted string are unique |
| `DurationGrammar.Concatenated` | internal/convert/converters.go:197-205 | an accepted string followed by one that is empty or starts with a digit adds up, wrapped, to both totals |
| `DurationGrammar.FormatParses` | internal/convert/converters.go:149-208 | the canonical text of any number of microseconds whose nanoseconds fit int64 parses back to it |
| `DurationGrammar.MixedRadix` | internal/convert/converters.go:127-141 | weeks, days, hours, minutes, seconds, milli- and microseconds make up the number they were split from |
| `DurationGrammar.NumberAppend` | internal/convert/converters.go:181 | digits are decimal: each counts ten times as much for every digit after it |
| `DurationGrammar.UnitsInFull` | internal/convert/converters.go:127-141 | the nanoseconds of each of the seven units for any number, and that a sign counts as a sign |
| `DurationGrammar.LabelsInFull` | internal/convert/converters_test.go:94-96 | the empty string and a bare label count nothing, a bare number is refused, and a unit starts from `A` on |
| `CircuitBreaker.Ran` | internal/collector/device_collector.go:209-237 | the collectors that run are the longest beginning without an earlier stop |
| `CircuitBreaker.Streak` | internal/collector/device_collector.go:216-229 | the counter is the exact number of failures in a row so far |
| `CircuitBreaker.StreakOfFive` | internal/collector/device_collector.go:223 | the counter reaches the limit if and only if the last five collectors failed |
| `CircuitBreaker.FailedAre` | internal/collector/device_collector.go:216-217 | the joined errors are those of exactly the collectors that failed |
| `CircuitBreaker.FailedInOrder` | internal/collector/device_collector.go:216-217 | the joined errors are in the order of the collectors |
| `CircuitBreaker.GatherMeaning` | internal/collector/device_collector.go:201-240 | the error is nil if and only if every collector that ran succeeded; the limit is reported if and only if the run ended on five failures; otherwise all ran or the scrape was cancelled |
| `CircuitBreaker.StopsAfterFive` | internal/collector/device_collector.go:28-237 | in numbers: all collectors run up to the first that panics, after which the scrape is cancelled, or that is the fifth failure in a row; the limit is reported exactly if the last one is |
| `CircuitBreaker.OnlyTheLastPanics` | internal/collector/device_collector.go:209-216 | no collector runs after a panic |
| `DeviceCollector.Collector.Connect` | internal/collector/device_collector.go:89-142 | all paths of probing, reconnecting, logging in and identity lookup, with every connection opened and closed on the way |
| `DeviceCollector.Collector.GatherMetrics` | internal/collector/device_collector.go:201-240 | the loop's result is the meaning of the visits, and `errors` grows by exactly the failures that ran, also under a panic |
| `DeviceCollector.NextVisit` | internal/collector/device_collector.go:216-237 | one more collector extends the failures and the streak, and stops the run if and only if it panics, the scrape is cancelled or the streak is five; the loop's result is then what the run means |
| `DeviceCollector.Collector.Collect` | internal/collector/device_collector.go:173-199 | the fields and the result after every exit, the deferred disconnect included |
| `DeviceRuns.ScrapeKeeps` | internal/collector/device_collector.go:79-199 | a scrape keeps the account of open connections, and at every moment on the way at most one besides the dropped ones is open |
| `DeviceRuns.ConnectedKeeps` | internal/collector/device_collector.go:89-142 | the same for every path of connecting |
| `DeviceRuns.RunKeeps` | internal/collector/device_collector.go:173-199 | the account over every run of scrapes of a new device |
| `DeviceRuns.StaticDevice` | internal/collector/device_collector.go:79-142 | over every run of a device with a fixed address at most one connection is open at any moment, and after a scrape it is the cached one |
| `DeviceRuns.ServiceDevice` | internal/collector/device_collector.go:79-142 | a service-defined device keeps no connection after any exit; those still open are exactly the ones with a failed identity lookup |
| `DeviceRuns.NothingLeftOpen` | internal/collector/device_collector.go:106-137 | over every run of a service-defined device all connections are closed if and only if no scrape dials, logs in and then fails its identity lookup |
| `DeviceRuns.LostConnection` | internal/collector/device_collector.go:130-134 | one such scrape, after which the connection is neither closed nor cached |
| `DeviceRuns.WorksOnOpenConnection` | internal/collector/device_collector.go:174-194 | the connection a scrape works with is cached and open, whatever happened before |
| `DeviceRuns.ConnectMeans` | internal/collector/device_collector.go:89-142 | there is a connection if and only if the cached one answers, which is then used untouched, or a new one is dialled, logged in and, for a service, identified; the events in between and every field |
| `DeviceRuns.ScrapeMeans` | internal/collector/device_collector.go:173-199 | the cached connection, the events and the known version after every scrape, from the device and the script alone |
| `DeviceRuns.ScrapeResult` | internal/collector/device_collector.go:173-199 | which of the results a scrape ends with, each if and only if |
| `DeviceRuns.FirstScrape` | internal/collector/device_collector.go:72-76 | a new device has nothing cached and asks for the version |
| `DeviceRuns.ScrapeSucceeds` | internal/collector/device_collector.go:173-199 | success if and only if there is a connection, the version is known or was obtained, and every collector that ran succeeded |
| `DeviceRuns.ScrapeErrors` | internal/collector/device_collector.go:178-230 | what each outcome adds to the error counter, at most one per collector |
| `DeviceRuns.FailuresCounted` | internal/collector/device_collector.go:216-219 | the failures counted are as many as collectors ran and failed |
| `DeviceRuns.ErrorsCounted` | internal/collector/device_collector.go:178-230 | a new device's counter is the sum of what its scrapes added |
| `DeviceRuns.ErrorsBounded` | internal/collector/device_collector.go:178-230 | over every run the counter never falls and is at most scrapes times collectors higher |
| `FanOut.NextKeeps` | internal/collector/mikrotik_collector.go:103-114 | every step keeps the account of counter, goroutines and collections |
| `FanOut.InvAlways` | internal/collector/mikrotik_collector.go:103-114 | the account holds in every state of every interleaving |
| `FanOut.AllCollected` | internal/collector/mikrotik_collector.go:85-117 | when the scrape has returned every resolved device was collected exactly once, panics or not |
| `FanOut.ReportsSent` | internal/collector/mikrotik_collector.go:119-158 | at the return every goroutine has sent its success, error and duration metrics once each, unless a panic was recovered: then once, and only the first few of them |
| `FanOut.RealDevices` | internal/collector/mikrotik_collector.go:89-101 | the loop gives every fixed device, and for a service the devices of its lookup's answer or none, in order |
| `FanOut.DevicesFromSrv` | internal/collector/mikrotik_collector.go:160-183 | a device of its own for every address in the answer |
| `FanOut.ResolvedAt` | internal/collector/mikrotik_collector.go:91-101 | where in the list the devices of each configured target are |
| `FanOut.ResolvedPlaces` | internal/collector/mikrotik_collector.go:91-183 | a fixed device takes one place of its own, an answered lookup one for each of its addresses in order, a failed one none |
| `FanOut.TargetsCollected` | internal/collector/mikrotik_collector.go:85-117 | when the scrape has returned every fixed device and every address of an answered lookup was collected exactly once by a goroutine of its own, and there was no other goroutine |
| `FanOut.SilentAfterReturn` | internal/collector/mikrotik_collector.go:107-158 | after the return no goroutine does anything, so no metric is sent |
| `FanOut.NothingLeft` | internal/collector/mikrotik_collector.go:114 | no step is possible after the return |
| `FanOut.CounterNotNegative` | internal/collector/mikrotik_collector.go:103-110 | the wait group's counter stays between zero and the number of devices |
| `FanOut.NeverStuck` | internal/collector/mikrotik_collector.go:103-114 | until the scrape has returned some step is possible |
| `Configuration.FirstNamed` | internal/config/config.go:197-213 | a device gets what the first device of its name asks for, and the lookup never panics after loading |
| `Configuration.UnknownName` | internal/config/config.go:197-213 | the lookup panics if and only if no device has the name or the first one that has it names an unknown profile |
| `Configuration.OwnFeatures` | internal/config/config.go:197-213 | a device gets its own features if and only if the first device of its name asks for the same |
| `Configuration.SharedName` | internal/config/config.go:197-213 | an accepted file with two devices of one name, of which the second asks for a feature and does not get it |
| `Configuration.FeaturesContained` | internal/config/config.go:225-245 | every device's enabled features are among all enabled ones, also with shared or empty names |
| `Configuration.AllEnabledAre` | internal/config/config.go:225-245 | all enabled features are exactly those that some device contributes and does not switch off |
| `Configuration.Config.DeviceFeaturesOf` | internal/config/config.go:197-213 | the search gives the features of the first device of that name |
| `Configuration.Config.AllEnabledFeatures` | internal/config/config.go:225-245 | each name once, and exactly the names some device enables |
| `Configuration.Config.Load` | internal/config/config.go:420-454 | loaded if and only if every key, profile and enabled device is valid; rejected only for an invalid part, a panic only for a null profile; afterwards `resource` is enabled everywhere and every device has a known profile |
| `Configuration.AcceptableMeans` | internal/config/config.go:160-373 | what a file must satisfy to be accepted, field by field |
| `Configuration.Config.FilterDevices` | internal/config/config.go:458-469 | the devices that are not disabled, in order |
| `Configuration.DevicesKept` | internal/config/config.go:458-469 | where every device that is not disabled stands afterwards; the disabled ones take no place |
| `Configuration.EnabledAre` | internal/config/config.go:458-469 | a device is kept if and only if it is not disabled |
| `Configuration.Config.Validate` | internal/config/config.go:247-272 | valid if and only if every profile and device is, in whatever order profiles are visited; `resource` is reset in each |
| `Configuration.Config.Fix` | internal/config/config.go:274-280 | every feature map completed, key by key |
| `Configuration.FixFeatures` | internal/config/config.go:177-186 | the loop over the map completes each entry once and changes no key |
| `Configuration.FixKeepsEnabled` | internal/config/config.go:177-186 | completing a map leaves what is enabled unchanged and gives every feature an `enabled` entry |
| `Configuration.FixedOptions` | internal/config/config.go:73-85 | completing keeps every option given; a feature is enabled if and only if its `enabled` is not the boolean false |
| `Configuration.EnabledAfterLoad` | internal/config/config.go:177-186 | loading adds `resource` to what a feature map enables and changes nothing else |
| `Configuration.FixedResource` | internal/config/config.go:254 | `resource` is enabled after loading, whatever the file said about it |
| `Configuration.FeatureNames` | internal/config/config.go:73-158 | each feature once, unless its `enabled` option is the boolean false, and no other name |
| `Configuration.ListOf` | internal/config/config.go:239-244 | each element of the set once |
| `Collectors.CreateCollectors` | internal/collector/mod.go:76-91 | an instance for exactly the enabled names that are registered |
| `Collectors.Get` | internal/collector/mod.go:93-101 | an entry per name in order, nil where there is no instance |
| `Collectors.NewCollector` | internal/collector/mikrotik_collector.go:48-71 | every device of a loaded configuration, in order, with exactly its enabled features, `resource` among them; an entry's collector is nil if and only if its name is not registered |
| `Collectors.HasResource` | internal/config/config.go:441-442 | every device of a loaded configuration has `resource` enabled |
| `Collectors.EntriesServe` | internal/collector/mod.go:93-101 | the looked-up entries are the enabled features, each once, with their configuration |
| `Collectors.NilFree` | internal/collector/mod.go:97 | a device has no nil collector if and only if all its enabled features are registered names |
| `Collectors.ResolvedAsked` | internal/config/config.go:197-213 | after loading, a device has what the file enables for the first device of its name, and `resource` |
| `Collectors.EntriesOnFile` | internal/collector/mikrotik_collector.go:54-58 | a device is handed `resource` and exactly the features that the file lists and does not switch off for the first device of its name, each once, with the options of the file and the collector of its name |
| `Collectors.GetsWhatItAsks` | internal/config/config.go:197-213 | a device gets what the file enables for it if and only if the file enables the same, `resource` apart, for the first device of its name |
| `Collectors.NilFreeLoad` | internal/collector/mod.go:76-101 | no device of a loaded configuration is handed a nil collector if and only if the file enables only registered names, exactly spelled, for the first device of every name |
| `Collectors.CollectorsOf` | cli/main.go:117-129 | from the decoded file to the collectors: accepted if and only if valid, each device with the entries the file says, and no collector nil under exactly the stated condition on the file |
| `Collectors.CapitalKey` | internal/config/config.go:168 | a file with a key in capitals is accepted, and its device is handed a nil collector under that key |

## Left out

- Sockets, TLS, DNS and SRV lookups, the HTTP server, systemd, logging and YAML decoding; the model starts from byte
  streams, per-scrape scripts and a decoded configuration.
- The capacity of the writer's buffer: the model's buffer may hand over any part of what is pending at any time, which
  covers every capacity.
- A connection read that returns no bytes and no error.
- The Windows-1250 table and MD5: parameters, the former known to be the identity on ASCII and never to give ASCII or
  nothing for other bytes.
- Identity of sentences: the source keeps pointers to them, the model values. String rendering and listing of a
  sentence.
- Several goroutines reading replies on one client at once: the reader takes no lock, and nothing orders the replies
  then. The model has one reader at a time; only writing is interleaved.
- Causality between a command and the device's bytes: the device's bytes are a fixed stream.
- Memory limits when a length up to 2^32 is allocated; words sent have fewer than 2^32 bytes where a round trip is
  stated.
- Go map aliasing: two profiles that YAML anchors make one map are two equal maps in the model.
- Durations.MetricFromDuration: gives nanoseconds; their division into float64 seconds is not modelled.
- Durations.UnixTimeFromDuration: gives integer seconds, without the conversion to float64, and the instants are
  unbounded integers.
- DeviceCollector.Collector.GatherMetrics: the error counter is an unbounded number, not an int64; collectors are
  outcomes, their commands and metrics are not modelled.
- DeviceCollector.Collector.Connect: the device's name that a lookup stores, its timezone and the text of its version
  are not modelled; whether the lookups succeed and the major version are part of the script.
- FanOut.DevicesFromSrv: the answer of a lookup is given; its query, and the credentials copied into the devices made
  from it, are not modelled. Those devices are new in every scrape, so a run of a service-defined device in `DeviceRuns`
  has one scrape in the source; its results hold for longer runs as well.
- Client.Client.Close: is sequential; concurrent calls are in `CloseProtocol`, on values. Likewise waiting for the
  writer's lock is in `WriterProtocol`.
- Configuration.Config.Load: the texts of joined errors are not modelled. With an invalid part and a null profile at
  once either outcome is possible, as in the source, which visits profiles in random order.
- Configuration: lower-casing is a parameter; ports, timeouts, string lists of features and version comparison are
  left out as lookups of one branch.
- Collectors.CollectorsOf: a configuration made from command-line flags, and flags that add a feature to a loaded one,
  are not modelled.
- The individual collectors, converters of one value, date parsing and the metric builder: command strings and
  property lists, which would add easy members only.
