# The configuration facade, modelled and proved

This project models the configuration service of the abstraction facade: the generated wire codec
and the request/reply envelope around it, the conditional replacement of the stored user record,
the long-poll observation protocol, and the layered resolution that decides which rung of
configuration answers for a key.

## What is proved, in short

- **Codec** (`Bytes`, `Utf8`, `Strings`, `Integers`, `Keys`, `Grammar`, `Texts`, `Skip`, `Masks`,
  `Records`, `RoundTrip`, `Lockstep`, `Meaning`, `Layout`, `Canonical`, `Decoded`, `Accounting`, `Reader`,
  `Writer`, `PyCodec`, `Schemas`, `Snapshots`). The reader is a class with a moving position and depth; each of its methods is
  proved equal, value and final position or word and offset, to a function of the buffer and the
  start. About those functions: UTF-8 is accepted exactly as section 4 of RFC 3629 says; integers
  have one spelling each, in Go and in Python alike; a value is skipped exactly when it is a value
  of the RFC 8259 grammar, paired, within the nesting limit and not the start of a longer number; a
  typed decoder takes a value, or refuses with a word, according to the JSON value that stands there
  and to nothing else, and a whole text exactly when it is one JSON value between blanks; what is
  encoded is the spelling of a JSON value in one layout, names in order; every encoded value of every schema decodes to itself at every indentation and depth; the
  encoding is injective; what is accepted is well typed and can be encoded again.
- **Calls** (`Rpc`, `Endpoint`). A client joined to its dispatcher, alone or behind an endpoint,
  shows the caller exactly what the handler did; invalid strings are refused and never altered; a
  frame of another version, service or method is refused for what it is.
- **Size** (`FrameBound`). A user record of at most 256 KiB that the editor accepts is answered in
  a frame of at most 1 MiB, and says for each key what the member that names it says.
- **Stored records** (`UserScanner`). The byte scanner rejects exactly the JSON texts with an
  unpaired surrogate escape, which is the codec's verdict.
- **Replacement** (`Replace`, `UserStore`, `Editor`). Any number of callers beside any foreign
  writers: every run is a run of the sequential specification, results and real-time order
  included. The editor says applied exactly when the data landed, and that the storage is unavailable
  only when there is a reason for it.
- **Observation** (`Observation`, `Cursors`). A state machine over announcements, the one-place
  queue, the pump, the waiting calls and the host's start and close: no lost wakeup, no channel
  closed twice, at most one source, slots conserved, Close joins and cannot deadlock.
- **Layers** (`Layers`). The in-place merge loops compute the nearest set source for every key and
  name it.

## How it is modelled

Bytes are integers from 0 to 255 and the shifts and masks of the source are quotients and
remainders. The generated encoders and decoders are instances of one template each, so they are
written once over a field list (`Records`, `Reader.Record`, `Writer.Record`); the field lists of the
facade are in `Schemas`. `Grammar` is RFC 8259 with its own blanks, escapes, digits and marks; the
readers have theirs, and `Texts` proves that they are the same. Integers are unbounded in Dafny; where the source's width matters (the
64-bit accumulator, the unsigned negation, the 32-bit word of marks) it is written out. The state
that several goroutines share in `observer.go`, `watch.go` and `service.go` is the state of a
machine whose steps are their critical sections, since their interleavings are the point; everything
one goroutine does alone is a method. Errors are values: `Ok(value, pos)` or `Err(word, offset)`.
SHA-256, the JSON writer behind the cursor binding, and the revision of a stored record are
parameters; no hash of thirty-two bytes is injective, so a lemma that needs two texts told apart
asks it of those texts, or says that equal results exhibit a collision. The store is a
specification: a write lands if and only if the store does not fail and the current bytes are the
base.

Three statements about the code turn out to need a condition. *A value is skipped whenever a longest
RFC 8259 value stands there* is false of `1.x`, where `1` is such a value and the walk wants digits
after the point (`Skip.LongestMayBeRefused`); `Skip.SkipIsGrammar` has the exact condition. *A
waiting call whose store has changed has a wakeup coming* holds as long as the subscription is
registered and ends when Close removes it (`Observation.StrandedIsReached`); that the wakeup is also
delivered holds as long as the host is not cancelled (`Observation.UnservedIsReached`). *The empty
configuration is an identity of merge* holds on the left exactly for configurations whose unset keys
carry no origin (`Layers.EmptyIsIdentity`), which is all that decoding and merging build
(`Layers.OverlayIsTidy`).

## Model

| member | source | states |
|---|---|---|
| Utf8.ValidIsOctets | go/abstraction/config/rec.go:1204-1238 | the check accepts exactly UTF8-octets of section 4 of RFC 3629 |
| Utf8.CheckUtf8 | go/abstraction/config/rec.go:1204-1238 | the loop answers that question for every byte string |
| Utf8.RuneReadsBack | go/abstraction/config/rec.go:1192-1202 | every scalar value is written as one accepted character that reads back as it |
| Utf8.CharIsRune | go/abstraction/config/rec.go:1204-1238 | every accepted character is the encoding of exactly one scalar value |
| Utf8.EscapeSynchronises | go/abstraction/config/rec.go:1123-1168 | an escaped character never completes a truncated raw sequence around it |
| Strings.PairsAreSupplementary | go/abstraction/config/rec.go:1150-1163 | surrogate pairs map one to one onto U+10000 to U+10FFFF |
| Strings.StrRoundTrip | go/abstraction/config/rec.go:1091-1121 | reading an escaped string gives the string, or bad_string if it is not valid UTF-8 |
| Strings.BodyRoundTrip | go/abstraction/config/rec.go:7-29 | any byte string, valid or not, comes back from its escaped body |
| Strings.EscIsShortest | go/abstraction/config/rec.go:182-188 | no accepted literal is shorter than the one written for its value |
| Strings.EscPrefixFree | go/abstraction/config/rec.go:182-188 | two strings never share an escaped form, not even inside a longer text |
| Integers.IntegerIsNum | go/abstraction/config/rec.go:1240-1287 | integer succeeds with n at q if and only if the canonical spelling of an n in range stands there and stops there |
| Integers.NumReadsBack | go/abstraction/config/rec.go:31-50 | integer(num(n)) is n for every 64-bit n, the minimum included |
| Integers.GoRunConverts | go/abstraction/config/rec.go:1254-1265 | the guarded accumulator converts the whole run, or stops on one whose value is out of range |
| Integers.WriteNum | go/abstraction/config/rec.go:31-50 | the writer appends the canonical spelling |
| Integers.WriteDigits | go/abstraction/config/rec.go:35-49 | the digits fill the 24-byte buffer from the back and never run out of it |
| Integers.PythonAgrees | py/abstraction/config/_codec.py:911-937 | both languages accept the same spellings with the same values and refuse with the same words |
| Keys.ByteLess | go/abstraction/config/rec.go:136-147 | the comparison loop is the lexicographic order |
| Keys.LessIs | go/abstraction/config/rec.go:136-147 | that order, by index: the strings agree up to some place, and there the first has ended or has the smaller byte |
| Keys.LessIsTotal | go/abstraction/config/rec.go:136-147 | exactly one of less, equal and greater holds |
| Keys.LessIsTransitive | go/abstraction/config/rec.go:136-147 | the order is transitive |
| Keys.OneListing | go/abstraction/config/rec.go:149-160 | a set of keys has one ascending listing |
| Keys.SortedKeys | go/abstraction/config/rec.go:149-160 | the in-place sort returns that listing, each key preceding the next, whatever order the map gives them in |
| Texts.StrOfText | go/abstraction/config/rec.go:1091-1168 | a quoted text of the grammar is read as what it stands for if its surrogates are paired, and refused as bad_string if not |
| Texts.TextOfStr | go/abstraction/config/rec.go:1091-1168 | whatever literal is accepted is such a text |
| Texts.EscapesAgree | go/abstraction/config/rec.go:1131-1145 | the two-byte escapes are those of section 7 of RFC 8259 |
| Texts.HexAgrees | go/abstraction/config/rec.go:1170-1190 | so are the hexadecimal digits and their value, in either case |
| Texts.BlanksAgree | go/abstraction/config/rec.go:1072-1081 | the blanks are those of section 2 |
| Texts.EscapeRefused | go/abstraction/config/rec.go:1123-1168 | which escapes are refused, at which byte and with which word |
| Texts.UnfinishedIsMalformed | go/abstraction/config/rec.go:1091-1121 | a literal is malformed if and only if one more quote, or two, would finish it; any other refusal is bad_string |
| Skip.SkipIsGrammar | go/abstraction/config/rec.go:1394-1513 | skipValue ends at q if and only if a paired grammar value within the limit ends there and is not the start of a longer number |
| Skip.SkipComplete | go/abstraction/config/rec.go:1394-1513 | every such value is skipped to its end |
| Skip.SkipIsLongest | go/abstraction/config/rec.go:1424-1466 | what is skipped is the longest value that stands there |
| Skip.LongestMayBeRefused | go/abstraction/config/rec.go:1440-1445 | the text 1.x: a value stands at its start and the walk refuses |
| Skip.RefusalIs | go/abstraction/config/rec.go:1394-1411 | with which word an opaque value is refused, by its first byte; too deep if and only if it opens a sixty-fifth level |
| Reader.Reader.Ws | go/abstraction/config/rec.go:1072-1081 | the position moves over exactly the blanks |
| Reader.Reader.Enter | go/abstraction/config/rec.go:1083-1089 | one level deeper, refused past sixty-four |
| Reader.Reader.Hex4 | go/abstraction/config/rec.go:1170-1190 | the loop is the value of four hex digits, or bad_string where they begin |
| Reader.Reader.Escape | go/abstraction/config/rec.go:1123-1168 | the step appends what the escape stands for, with every refusal at its byte |
| Reader.Reader.Str | go/abstraction/config/rec.go:1091-1121 | the loop reads the literal: value and position, or word and offset |
| Reader.Reader.Integer | go/abstraction/config/rec.go:1240-1287 | the loop is the integer reader that IntegerIsNum is about |
| Reader.Reader.Boolean | go/abstraction/config/rec.go:1289-1297 | true, false, or the word for anything else |
| Reader.Reader.SkipNumber | go/abstraction/config/rec.go:1424-1454 | the walk is the number walker that SkipIsGrammar is about |
| Reader.Reader.SkipContainer | go/abstraction/config/rec.go:1468-1513 | the member loop is the container walker, in bounds, with the depth given back |
| Reader.Reader.SkipValue | go/abstraction/config/rec.go:1394-1411 | the walker of any value, depth restored |
| Reader.Reader.RawValue | go/abstraction/config/rec.go:1386-1392 | an opaque value is exactly the bytes walked over |
| Reader.Reader.StrMap | go/abstraction/config/rec.go:1515-1559 | the loop builds the map of its entries, the last of equal names winning |
| Reader.Reader.Member | go/abstraction/config/rec.go:1582-1631 | one turn of a record: unknown, duplicate, or read and marked, with the marks within 32 bits |
| Reader.Reader.Record | go/abstraction/config/rec.go:1561-1648 | the record loop and its account of missing fields |
| Reader.Reader.Value | go/abstraction/config/rec.go:2105-2265 | the step for each kind of field, enum words included |
| Reader.Reader.Whole | go/abstraction/config/rec.go:3003-3015 | blanks, one value, blanks, and nothing more |
| Reader.MarksComplete | go/abstraction/config/rec.go:1644-1646 | comparing the word with the required mask finds exactly a missing required field |
| Masks.SetBit | go/abstraction/config/rec.go:1590-1593 | marking a field changes no other mark |
| Masks.Covers | go/abstraction/config/rec.go:1644-1646 | the masked comparison asks for every required bit |
| Writer.Pad | go/abstraction/config/rec.go:52-57 | two spaces for each level |
| Writer.Esc | go/abstraction/config/rec.go:182-188 | the loop appends the escaped string |
| Writer.StrMap | go/abstraction/config/rec.go:190-208 | the loop appends the entries in key order |
| Writer.Record | go/abstraction/config/rec.go:609-843 | the encoder template, optional fields left out, an unknown enum stopping it |
| Writer.Value | go/abstraction/config/rec.go:795-843 | the encoding of a value of any kind |
| RoundTrip.DecEnc | go/abstraction/config/rec.go:609-1042 | whatever follows it, an encoding decodes to its value and stops at its end; with an invalid string in it, bad_string |
| RoundTrip.MapRoundTrip | go/abstraction/config/rec.go:1515-1559 | the same for maps of strings |
| Meaning.SenseAgrees | go/abstraction/config/rec.go:1561-3001 | wherever a JSON value stands, the decoder of a kind answers what the value means for it: the value, or the word of the refusal and, but for the spelling of a number, its byte |
| Meaning.DecIsSense | go/abstraction/config/rec.go:1561-3001 | a decoder takes v, ending at q, if and only if a value of the grammar that means v stands there and ends at q |
| Meaning.TextIsJson | go/abstraction/config/rec.go:3003-3015 | a whole text is taken as v if and only if it is blanks, one JSON value that means v, and blanks |
| Meaning.TrailingIsFound | go/abstraction/config/rec.go:3010-3013 | trailing_bytes at o if and only if such a value stands there and o is the first byte after it that is no blank |
| Meaning.TextAgrees | go/abstraction/config/rec.go:3003-3015 | any other JSON value between blanks is refused with the word it means |
| Meaning.MapHoldsLast | go/abstraction/config/rec.go:1515-1559 | an object is a map of strings if and only if its members are strings; of equal names the last one counts |
| Layout.EncIsPrinted | go/abstraction/config/rec.go:609-1042 | an encoding spells a JSON value that means the encoded one, in one layout: a line for each member, two spaces a level, fields in order, keys ascending, strings escaped only where they must be |
| Lockstep.DecFollows | go/abstraction/config/rec.go:1561-3001 | what a typed decoder accepts the opaque walker accepts, ending at the same byte |
| Lockstep.EncIsOpaque | go/abstraction/config/rec.go:904-972 | an encoded record can be carried as an opaque value, and a bad string in it is found there too |
| Lockstep.GrammarIsWhole | go/abstraction/config/rec.go:1413-1419 | any paired JSON value within the limit can be carried opaquely |
| Canonical.MapsTellApart | go/abstraction/config/rec.go:190-208 | the encodings of two different maps never stand at one place |
| Canonical.EntriesInOrder | go/abstraction/config/rec.go:190-208 | of two keys the one that precedes is written first, its value with it, whatever bytes they hold |
| Canonical.EncTellsApart | go/abstraction/config/rec.go:609-1042 | nor do those of two different values of one schema, whatever bytes their strings hold |
| Canonical.EncIsInjective | go/abstraction/config/rec.go:609-1042 | equal encodings come from equal values |
| Decoded.DecSound | go/abstraction/config/rec.go:1561-3001 | a decoder yields only complete, typed, in-vocabulary values with valid strings |
| Decoded.Reencodes | go/abstraction/config/rec.go:1040-1042 | writing an accepted value again gives a text that decodes to it |
| Decoded.TextOfEnc | go/abstraction/config/rec.go:3003-3015 | an encoding with blanks after it is a whole text for its value |
| Accounting.RecordIsAccounted | go/abstraction/config/rec.go:1561-1648 | a record is accepted if and only if every member names a field and suits it, none is named twice, and every required one is named |
| Accounting.RecordHoldsMembers | go/abstraction/config/rec.go:1561-1648 | each field read is the value of the member that names it, in whatever order they come |
| Accounting.LoopGathers | go/abstraction/config/rec.go:1561-1648 | the record loop is the gathering of its members and the account at the end |
| Snapshots.Encode | go/abstraction/config/rec.go:1040-1042 | the document of a snapshot |
| Snapshots.Decode | go/abstraction/config/rec.go:3003-3015 | the reader of that document |
| Snapshots.DecodesBack | go/abstraction/config/rec.go:3003-3015 | Decode(Encode(s)) is s |
| Snapshots.DecodeIsJson | go/abstraction/config/rec.go:3003-3015 | Decode takes exactly the JSON texts that say a snapshot, and no byte more |
| Snapshots.DocumentIsPrinted | go/abstraction/config/rec.go:1040-1042 | a document is a JSON text in that layout, says its snapshot, and ends in a line break |
| Snapshots.DocumentsTellApart | go/abstraction/config/rec.go:1040-1042 | different snapshots have different documents, invalid strings included |
| PyCodec.String | py/abstraction/config/_codec.py:834-866 | the search-and-decode fast path gives the value and position, or word and offset, of the bytewise path |
| PyCodec.Integer | py/abstraction/config/_codec.py:911-937 | the digit-count reader is the one PythonAgrees is about |
| Rpc.ContractsGood | go/abstraction/config/rec.go:555-607 | each of the four contracts names itself in valid UTF-8 and has records the codec carries and reads in full |
| Rpc.FrameArrives | go/abstraction/config/rec.go:3292-3308 | a frame is sent if and only if its strings are valid, and is read back as the request |
| Rpc.ReplyArrives | go/abstraction/config/rec.go:3116-3163 | a reply carries its payload or its error's code and message, and an invalid diagnostic is not let out |
| Rpc.ResultArrives | go/abstraction/config/rec.go:3404-3443 | a result is carried if and only if its strings are valid |
| Rpc.Transparent | go/abstraction/config/rec.go:3292-3333 | the caller sees what the handler did: its value, its error, handler_error for an empty code or a panic, invalid_result for a value that cannot be sent |
| Rpc.RequestTaken | go/abstraction/config/rec.go:3035-3050 | a frame is taken if and only if it is one request record of version one; another version is unknown_version |
| Rpc.ReplyTold | go/abstraction/config/rec.go:3081-3115 | what the caller is told of a reply: unknown_version, mismatched_response, its payload or its error, by what it says |
| Rpc.ResultBelieved | go/abstraction/config/rec.go:3081-3115 | a payload is believed if and only if the reply is of version one, for this method of this service, and says ok |
| Rpc.Misdelivered | go/abstraction/config/rec.go:3095-3097 | a reply that reaches the client of another method or service is refused as mismatched |
| Rpc.DispatcherRefuses | go/abstraction/config/rec.go:3375-3403 | a call to another service, of an unknown method, or with arguments of another record ends with the word for that |
| Rpc.EndpointIsDescribed | go/abstraction/config/rec.go:3380-3382 | every dispatcher answers the endpoint's own service with the description |
| Endpoint.EndpointTransparent | go/abstraction/config/rec.go:3254-3283 | the same through an endpoint hosting several services, for all arguments |
| Endpoint.FacadeIsGood | go/service/service.go:123-126 | the reader, editor and observer services, hosted together, meet the conditions of the call theorems |
| Endpoint.FacadeTransparent | go/service/service.go:123-126 | so each of the four methods is transparent through the endpoint that serves them |
| Endpoint.EndpointRefuses | go/abstraction/config/rec.go:3254-3283 | unknown_service for a service not hosted, wrong_mode for one that only takes one-way frames |
| Endpoint.EndpointDescribes | go/abstraction/config/rec.go:3259-3265 | a frame for the endpoint itself is answered by its description |
| Endpoint.ReadPayload | go/abstraction/config/rec.go:3035-3050 | the envelope reader, version checked |
| Endpoint.WriteReply | go/abstraction/config/rec.go:3116-3163 | the reply writer with its check before sending |
| Endpoint.ReadResponse | go/abstraction/config/rec.go:3081-3115 | the client's reader of a reply |
| FrameBound.TextIsNoShorter | go/abstraction/config/rec.go:7-29 | no spelling of a string on disk is shorter than its spelling on the wire |
| FrameBound.RecordIs | go/user_editor.go:27-80 | a record is accepted if and only if it is an object whose members are settings, no two of one key |
| FrameBound.RecordSays | go/user_editor.go:27-80 | a record says for each key what the member that names it says, and nothing for a key that none names |
| FrameBound.ReasonsAreSense | go/user_editor.go:41-62 | an object of reasons is read as the codec reads a map of strings |
| FrameBound.ReasonsWeigh | go/user_editor.go:41-62 | ten bytes of disk pay for three of wire, entry by entry |
| FrameBound.RecordWeighs | go/user_editor.go:27-80 | the same for a whole accepted record |
| FrameBound.FrameFits | go/user_editor.go:18-19 | an accepted record of at most 256 KiB is answered in at most 1 MiB, by ReadUser and by ReplaceUser |
| UserScanner.StrictScan | go/user_editor.go:198-243 | the loops stay in bounds, end, and accept exactly valid UTF-8 that the scan accepts |
| UserScanner.SpellIsUtf8 | go/user_editor.go:200-202 | every JSON text of the grammar passes the scanner's UTF-8 test |
| UserScanner.ScanIsPaired | go/user_editor.go:198-243 | on a JSON text the scan rejects exactly unpaired surrogate escapes |
| UserScanner.StrictIsPaired | go/user_editor.go:198-243 | so the scanner accepts a JSON text if and only if its surrogate escapes are paired |
| UserScanner.SameVerdict | go/user_editor.go:198-243 | the codec takes a JSON value if and only if the scanner does and it goes no deeper than the codec's limit |
| UserScanner.SkipRefused | go/abstraction/config/rec.go:1123-1168 | the codec refuses a value that is unpaired or too deep, as bad_string when it is only unpaired |
| Replace.Linearizable | go/user_editor.go:124-154 | on every run the log is a sequential run ending in the content, each applied or conflicting call in it once, while it ran |
| Replace.History | go/user_editor.go:124-154 | over a stretch of a run the log only grows, finished calls stay as they are, and later calls are born later in it |
| Replace.RealTimeOrder | go/user_editor.go:124-154 | a call that was over before another began took effect before it |
| Replace.NothingOverwritten | go/user_editor.go:143-144 | a replacement lands only on the bytes read, of the expected revision |
| Replace.ReadIsForced | go/user_editor.go:135-142 | what a read leads to: failed, conflict with what was read, or held, by its revision alone |
| Replace.WriteIsForced | go/user_editor.go:143-148 | what a write leads to: applied, one more try, or exhausted after thirty-two |
| Replace.RetriesArePaidFor | go/user_editor.go:135-145 | each retry costs somebody else's write; giving up means thirty-two of them |
| UserStore.Store.Read | go/user_editor.go:95-107 | the store's contract: the content after whatever others wrote, or a storage error |
| UserStore.Store.Write | go/user_editor.go:143-148 | the write lands if and only if the store does not fail and the content is the base |
| UserStore.ReplaceUserStore | go/user_editor.go:124-154 | applied, conflict, exhausted and failed, each with what it means for the store, storage failures included |
| Editor.ReplaceUser | go/service/editor.go:71-106 | no refusal touches the store and each is given if and only if its own cause holds; applied if and only if the data landed last; storage_unavailable only with a reason, nothing written |
| Observation.Always | go/service/observer.go:66-134 | the invariant of the whole machine, on every run |
| Observation.NoLostWakeup | go/service/observer.go:196-235 | until Close takes the subscription out of the registry, a blocked call whose store has changed has an announcement, a token or the pump on its way |
| Observation.HelpIsAtHand | go/watch.go:39-49 | that wakeup can always come a step closer |
| Observation.NoSetback | go/watch.go:106-116 | nothing moves it away, not a signal dropped on a full queue |
| Observation.StartsOnce | go/service/observer.go:66-99 | one source at most, none after Close has looked, a start that is over leaves a source or a failure, failure never taken back, no channel closed twice or sent on afterwards |
| Observation.CloseJoins | go/service/observer.go:125-134 | when Close has returned the source is unsubscribed and stopped and the pump is gone |
| Observation.CloseProceeds | go/service/service.go:72-76 | Close never deadlocks: a step it waits for can always be taken |
| Observation.CloseKeepsPace | go/service/service.go:72-76 | nothing adds to what Close waits for but a signal into a queue still open |
| Observation.ReleaseNeverBlocks | go/service/observer.go:190-195 | every exit gives back the slot it took, at once; tokens are the calls holding one, thirty-two at most |
| Observation.AnswersAreHonest | go/service/observer.go:213-222 | a snapshot differs from the cursor; unchanged rests on a read made once the wait was used up; unavailable means a failed source, or the same content read in time with every slot taken |
| Observation.SeenWasThere | go/service/observer.go:207-216 | whatever content an answer rests on, the store held it while the call ran |
| Observation.DecisionIsForced | go/service/observer.go:216-229 | after its read a call answers a snapshot, unchanged or unavailable, or waits in a slot, each if and only if it has to |
| Observation.LoadIsForced | go/service/observer.go:200-205 | and reads nothing from a source that has failed |
| Observation.BeginsFresh | go/service/observer.go:186-195 | a call begins with no slot and nothing read, its wait used up if it is not to wait |
| Observation.WaitEnds | go/service/observer.go:229-235 | the time limit uses the wait up, a wakeup does not; either way the call reads again, in the slot it has |
| Observation.LateNeverWaits | go/service/observer.go:217-219 | once the wait is used up the call never blocks again |
| Observation.StrandedIsReached | go/watch.go:117-127 | after that the promise is over: a run that ends with such a call and nothing on its way |
| Observation.UnservedIsReached | go/service/observer.go:103-106 | and from the cancellation on the pump may leave before it serves what is on its way |
| Observation.WaitingIsReached | go/service/observer.go:196-235 | a waiting call whose store has moved on is a state the machine does reach |
| Observation.ClosedIsReached | go/service/service.go:72-76 | so is a closed host whose source had started |
| Cursors.ShapedIs | go/service/observer.go:171-180 | a cursor is well shaped if and only if it is 32, 64 and 64 hex digits between colons |
| Cursors.JudgeIs | go/service/observer.go:171-184 | the empty cursor is none, any other is misshapen, foreign or ours, told by its parts |
| Cursors.HexSpells | go/service/observer.go:146-150 | two lower-case digits for each byte, the high half first |
| Cursors.EmittedIsJudged | go/service/observer.go:171-184 | an emitted cursor is never invalid; it is a gap exactly under another epoch or binding |
| Cursors.OtherOverridesAreForeign | go/service/observer.go:146-150 | unless the hash collides on the two texts, other overrides make a gap exactly when their JSON differs |
| Cursors.CursorsEqual | go/service/observer.go:210-212 | cursors are equal if and only if the epoch and the two hashes behind them are |
| Cursors.CursorsTellApart | go/service/observer.go:210-212 | equal cursors of different snapshots or overrides exhibit a collision; without one they are equal if and only if epoch, overrides and the whole snapshot are |
| Cursors.NoCollisionIsPossible | go/service/observer.go:210-212 | for any two snapshots and overrides there is an instance without these collisions |
| Cursors.Observe | go/service/observer.go:151-237 | which check answers what, told by the request alone; otherwise the turn that ends the wait and how; slots given back; the client accepts every answer |
| Cursors.AdmittedIs | go/service/observer.go:135-145 | the bounds of a request, in numbers |
| Cursors.EndsWith | go/service/observer.go:196-236 | how a wait ends, outcome by outcome: each if and only if the last turn is of its kind, and every turn before could only wait |
| Cursors.FirstIsAnswered | go/service/observer.go:213-215 | on the empty cursor the first read is the answer |
| Cursors.Wait | go/service/observer.go:196-236 | the loop ends at the first turn that ends the call, with that turn's answer |
| Cursors.EndingIsSettled | go/service/observer.go:213-222 | a snapshot or unchanged rests on the read of its turn, unchanged once the wait was used up |
| Cursors.ObserveContext | go/client/observer.go:36-60 | the client's bounds and its check of the answer, both in full |
| Layers.OverlayIsAssociative | go/config.go:268-282 | merging is associative |
| Layers.EmptyIsIdentity | go/config.go:268-282 | the empty configuration is an identity on the right, and on the left exactly for tidy origins |
| Layers.OverlayIsTidy | go/config.go:268-282 | merging keeps unset keys without an origin, so for all that is built the empty configuration is an identity on both sides |
| Layers.OverlayAnswers | go/config.go:268-282 | a nearer source laid over an answer gives the answer with that source in front |
| Layers.DefaultIsUnset | go/config.go:80-87 | a key's origin is default if and only if no source sets it |
| Layers.AnswerIsOnly | go/config.go:225-298 | the sources determine every value and every origin |
| Layers.RungsInOrder | go/user_editor.go:171-194 | key by key: the override, else the user's setting, else the machine's, else nothing, and the origin says which |
| Layers.Record | go/config.go:89-94 | one origin is written, in the shared map if there is one |
| Layers.Merge | go/config.go:268-282 | the loop computes the overlay, in the base's own map of origins |
| Layers.Decode | go/config.go:225-243 | a decoded source marks exactly the keys it sets |
| Layers.ApplyEnvironment | go/config.go:286-298 | the loop lays the overrides on top, never for off |
| Layers.LoadMachine | go/user_editor.go:176-181 | the machine's rung counts only if it is named and read |
| Layers.LoadUser | go/user_editor.go:182-192 | the user's rung is empty unless it decodes |
| Layers.LoadWithSources | go/user_editor.go:171-194 | a failed storage read is an error; otherwise every key is answered by the nearest source that sets it, and its origin names that source |

## Left out

- Sockets, framing, peer identity and the 64-call admission of Serve: outside the files modelled; authorization is a boolean of each call, and the admission is the slot argument again.
- OS notification, ownership checks and path discovery: system calls; a write elsewhere is noticed natively once the source watches, and a trust failure is an absent source.
- The settling delay, timers, random epochs, SHA-256 and the store's implementation: parameters, nondeterministic steps or specifications.
- Describe of an endpoint, stderr diagnostics, Save, Edit, asAdministrator and the command line: text and file-system behaviour.
- The C++, Rust and JavaScript codecs: generated twins of the Go one.
- Stamp: it is the JSON of the values and of nothing else, which leaves nothing to prove beside the cursor's digest.
- encoding/json on a stored record: FrameBound takes the record as a syntax tree and says what its values are; the library's parser is not part of this model.
- Observation.HelpIsAtHand: promises delivery while the host is open; once it is cancelled the pump may leave, and Close ends the waits by ending the calls, which is the transport's part.
- UserStore.Store.Write: a write that fails is taken not to have landed, which is for the store to keep.
- Reader.Reader.Record: for at most 32 fields, which is what the word of marks holds; no record of the facade has more than seven.
