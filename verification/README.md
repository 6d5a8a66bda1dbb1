# Verified models of an expiring cache and of HTTP codecs and protocols

The repository ships two libraries whose logic is worth proofs: the expiring cache of Drogon
(`CacheMap.h`), which is driven by a hierarchical timing wheel, and cpp-httplib (`httplib.h`), with its
incremental parsers, stream coding, range handling, thread pool and client. This project models them in
Dafny and proves what they are for. `dafny verify dfyconfig.toml` checks everything.

## What is modelled

- `TimingWheel`, `WheelState`: wheels of buckets of nested wrappers, and the set of alarms they stand for.
- `DeadlineCache`: what the cache promises, a map with one deadline per key and a list of tasks. `CacheMap`
  is the object with its map, wheels and tick counter, every method proved to do what the deadline map does.
  `CacheRuns` has the theorems over whole runs, `CacheLaws` the answers that a user gets.
- `Basics`: what the modules share. `Text`, `Query`, `QueryText`: the scanners, percent coding and query
  strings, with `QueryLaws` and `QueryOrder` for what they do to any text. `Base64`: the encoder.
- `MultipartHeader`, `MultipartMachine`, `MultipartParser`: the multipart parser as a line reader, a state
  machine, and the object with its buffer window. `HeaderLaws` says which lines are header fields and what
  becomes of them. `MultipartSplit` proves that cutting the input does not matter, `MultipartEpilogue` what
  may follow the closing delimiter, `MultipartRoundTrip` that parsing undoes serializing, `MultipartExact` for
  which items, `MultipartNames` what other forms of a disposition give, and `MultipartRefusal` what becomes
  of a body of which the application refuses a part.
- `Streams`, `ChunkedCoding`, `ChunkedTransfer`: the socket with its read-ahead buffer, the line reader with
  its two buffers, and the chunked transfer coding in both directions, trailers included. `ChunkSizes` and
  `ChunkInput`: which bytes are accepted, whoever wrote them.
- `ThreadPool`, `ClientSocket`: systems of atomic steps, with the critical sections as methods. A theorem
  about a run is about every interleaving.
- `Ranges`, `RangeBody`: range checking and coalescing, and the bytes and the declared length of a partial
  response. `PathParams`: route patterns. `Redirect`: the recursion of send, redirect and digest retry.

A `char` stands for one byte. Where the source calls the operating system, a peer, a user callback or a
clock, the model is nondeterministic or takes a parameter: socket reads and writes fragment as they like,
a connection may fail unless it is called healthy, servers answer anything, threads interleave freely.

Some promises turn out not to hold of the code as it is, and are then stated with their exact condition: the
reach of the wheels (`ExactInEveryPhaseIff`), keys in query strings (`QueryRoundTripIff`), text after a
closing delimiter (`EpilogueIff`), jobs pushed after shutdown (`AbandonedIffPushedLate`), a stop that a
nested send forgets (`StopForgottenIff`), gaps between coalesced ranges (`GapsIff`), suffix ranges longer
than the content (`InsideIff`), the assertions about ranges and the declared length for statuses other than
206 (`Respond`, `LengthAgreesIff`), short writes of a frame's tokens (`Respond`), names and contents of
multipart items (`MultipartRoundTripIff`), sink calls that do not close once (`RoundsRoundTripIff`), trailers
beyond the limits (`TrailerIff`), and patterns with a NUL (`RouteIsExactIff`).

## Model

| member | source | states |
|---|---|---|
| `TimingWheel.LiftKeepsFire` | CPPTools/include/drogon/CacheMap.h:484-504 | lifting an entry over one more wheel, in any phase, leaves the tick at which it is released unchanged |
| `TimingWheel.FireShift` | CPPTools/include/drogon/CacheMap.h:118-135 | a node that leaves its wheel k shifts later is released k·B^i ticks later |
| `TimingWheel.FireLowerBound` | CPPTools/include/drogon/CacheMap.h:118-135 | nothing is released before its wheel shifts, and a wrapped entry strictly later |
| `TimingWheel.ExactInEveryPhaseIff` | CPPTools/include/drogon/CacheMap.h:470-506 | an entry fires on the requested tick in every phase of the wheels if and only if its internal delay is at most b^w + b^(w-2) + … + 1; every delay up to B^W is |
| `TimingWheel.NoExcessWithinReach` | CPPTools/include/drogon/CacheMap.h:477-505 | within that reach the top-level quotient never exceeds B, whatever the phase |
| `TimingWheel.ExcessBeyondReach` | CPPTools/include/drogon/CacheMap.h:477-505 | beyond it there is a phase in which the quotient does exceed B |
| `TimingWheel.FireTick` | CPPTools/include/drogon/CacheMap.h:498-505 | the firing tick, early by exactly (q-B)·B^(W-1) when the top-level quotient q exceeds B, is later than now and never later than asked |
| `TimingWheel.CountStep` | CPPTools/include/drogon/CacheMap.h:118-135 | a wheel's shift count moves on exactly at the ticks that its period divides |
| `WheelState.LiftedStep` | CPPTools/include/drogon/CacheMap.h:484-504 | one round of the loop that wraps the entry keeps the entry's firing tick and excess |
| `WheelState.LiftedGoal` | CPPTools/include/drogon/CacheMap.h:479-502 | the bucket finally chosen, in range or last of the top wheel, is the one that releases the entry at its firing tick |
| `WheelState.LiftedPut` | CPPTools/include/drogon/CacheMap.h:479-502 | putting the lifted entry into that bucket adds this one alarm to the pending ones and changes no other |
| `WheelState.PopKeepsAlarms` | CPPTools/include/drogon/CacheMap.h:123-132 | taking the front bucket off a wheel takes exactly that bucket's alarms out of the pending set |
| `WheelState.PushKeepsAlarms` | CPPTools/include/drogon/CacheMap.h:132 | a new empty bucket at the back changes no alarm |
| `WheelState.DropOne` | CPPTools/include/drogon/CacheMap.h:486-496 | destroying a wrapper puts its content into the wheel below, due exactly when it was due before, provided the lower wheel has already shifted in this tick |
| `WheelState.CountsDuringStep` | CPPTools/include/drogon/CacheMap.h:118-135 | the wheels shift bottom up, so whenever wheel i shifts, wheel i-1 already has |
| `WheelState.BottomSplitsByDue` | CPPTools/include/drogon/CacheMap.h:118-135 | the bucket that leaves wheel 0 holds exactly the alarms due at this tick; all others are due later |
| `WheelState.ReferencedIffHeld` | CPPTools/include/drogon/CacheMap.h:517 | a weak reference can be locked exactly when some wheel still holds a copy of the entry |
| `WheelState.PopHeld` | CPPTools/include/drogon/CacheMap.h:158-161 | what the wheels hold before a bucket goes is what they hold after it plus what the bucket holds |
| `CacheMap.CacheMap.InsertEntry` | CPPTools/include/drogon/CacheMap.h:470-506 | adds exactly one alarm at the firing tick, or nothing for delay 0, for any number of wheels and buckets |
| `CacheMap.CacheMap.EraseAfter` | CPPTools/include/drogon/CacheMap.h:508-558 | adds a copy of the live entry of the key, or makes a new one if none can be locked, and changes nothing else |
| `CacheMap.CacheMap.Renew` | CPPTools/include/drogon/CacheMap.h:284-291 | an access moves the key's deadline to the later of the old one and the new one |
| `CacheMap.CacheMap.Create` | CPPTools/include/drogon/CacheMap.h:316-332 | a new node for an absent key, with its deadline |
| `CacheMap.CacheMap.Insert` | CPPTools/include/drogon/CacheMap.h:217-269 | put-if-absent; an existing key keeps value, timeout and callback, and the given timeout counts as an access |
| `CacheMap.CacheMap.Index` | CPPTools/include/drogon/CacheMap.h:280-293 | the value of the key or the default, and the access renews the key's life |
| `CacheMap.CacheMap.Modify` | CPPTools/include/drogon/CacheMap.h:312-336 | the handler is applied to the value, or to the default of a node created with the given timeout |
| `CacheMap.CacheMap.Find` | CPPTools/include/drogon/CacheMap.h:339-356 | whether the key is there, counted as an access |
| `CacheMap.CacheMap.FindAndFetch` | CPPTools/include/drogon/CacheMap.h:363-380 | the value if the key is there, counted as an access |
| `CacheMap.CacheMap.Erase` | CPPTools/include/drogon/CacheMap.h:387-396 | the key is gone, its timeout callback is not invoked, its timers are left to run out harmlessly |
| `CacheMap.CacheMap.RunAfter` | CPPTools/include/drogon/CacheMap.h:417-427 | one task waits for its firing tick; with delay 0 it runs before the call returns |
| `CacheMap.CacheMap.RunCallback` | CPPTools/include/drogon/CacheMap.h:527-550 | the destructor of a last reference erases its key only if no newer entry can be locked, and runs a task once |
| `CacheMap.CacheMap.FireEntries` | CPPTools/include/drogon/CacheMap.h:123-133 | destroying the bucket that left wheel 0 runs the callbacks of exactly the entries of which no copy is left |
| `CacheMap.CacheMap.DropWrappers` | CPPTools/include/drogon/CacheMap.h:486-496 | destroying a bucket of a higher wheel moves its content down and changes no alarm |
| `CacheMap.CacheMap.ShiftUpper` | CPPTools/include/drogon/CacheMap.h:121-133 | the shift of a wheel above the lowest changes no alarm |
| `CacheMap.CacheMap.ShiftBottom` | CPPTools/include/drogon/CacheMap.h:121-133 | the shift of the lowest wheel removes exactly the alarms due now |
| `CacheMap.CacheMap.Tick` | CPPTools/include/drogon/CacheMap.h:112-136 | a tick removes exactly the keys whose deadline is now and runs exactly the tasks due now, each with its callbacks, once |
| `CacheMap.CacheMap.DrainBucket` | CPPTools/include/drogon/CacheMap.h:158-161 | clearing a bucket during destruction drops contents only into wheels that are still there |
| `CacheMap.CacheMap.Destruct` | CPPTools/include/drogon/CacheMap.h:148-162 | destruction forgets the keys without callbacks, empties every wheel, and runs every task that was still waiting |
| `CacheMap.CoupleTouch` | CPPTools/include/drogon/CacheMap.h:508-525 | another copy of a live entry changes this key's deadline and nobody else's |
| `CacheMap.CoupleFresh` | CPPTools/include/drogon/CacheMap.h:526-557 | a new entry under a new name is nobody else's entry, whatever stale entries the wheels still hold |
| `CacheMap.CoupleTick` | CPPTools/include/drogon/CacheMap.h:112-136 | dropping the alarms due now releases exactly the keys and tasks whose deadline is now |
| `CacheMap.ExpireStep` | CPPTools/include/drogon/CacheMap.h:527-545 | the callback of a stale entry never removes a key that a newer entry keeps alive |
| `CacheRuns.Replay` | CPPTools/include/drogon/CacheMap.h:112-396 | over every run of calls and ticks the object's keys, values, deadlines, waiting tasks and callback log, and every answer of find, operator[] and findAndFetch, are those of a map with one deadline per key |
| `CacheRuns.TaskRunsExactlyOnce` | CPPTools/include/drogon/CacheMap.h:417-427 | over every run a task runs exactly once, on its tick or at destruction, and on tick delay + 1 if that is within B^W |
| `CacheRuns.CallbackOncePerIncarnation` | CPPTools/include/drogon/CacheMap.h:527-550 | over every run the timeout callback of an incarnation runs once if its deadline comes before an erase, and never otherwise, whatever later incarnations of the key do |
| `CacheRuns.InsertStartsIncarnation` | CPPTools/include/drogon/CacheMap.h:217-269 | in every reachable state storing an absent key starts an incarnation of its own |
| `CacheRuns.LivingStep` | CPPTools/include/drogon/CacheMap.h:387-396 | an incarnation ends by an erase of its key or by the tick of its deadline, and by nothing else |
| `CacheRuns.UntouchedKeyLivesToItsDeadline` | CPPTools/include/drogon/CacheMap.h:508-558 | a key that nobody touches is there, unchanged, exactly until its deadline |
| `CacheRuns.AccessRenews` | CPPTools/include/drogon/CacheMap.h:280-293 | within B^W an access sets the deadline to the later of the old one and now + timeout + 1 |
| `CacheLaws.LookupsFollowCountdown` | CPPTools/include/drogon/CacheMap.h:217-396 | whatever calls and ticks came before, with timeouts within B^W, find, operator[] and findAndFetch are answered from a countdown of the one key: its value, and the ticks it has left |
| `CacheLaws.InsertedValueIsServed` | CPPTools/include/drogon/CacheMap.h:249-269 | an absent key that is inserted is answered with exactly the given value, by all three lookups, until it is gone; it is gone exactly from the tick timeout + 1 after the insert on, or never with timeout 0 |
| `CacheLaws.ModifiedDefaultIsServed` | CPPTools/include/drogon/CacheMap.h:312-336 | the same for a key that modify creates, whose value is what the handler makes of the default |
| `CacheLaws.RevisitedKeyIsServed` | CPPTools/include/drogon/CacheMap.h:249-396 | a later insert leaves value and timeout and lets the key live to the later deadline; a lookup or a modification renews its own timeout, a modification serves the handler's value; an erase ends it |
| `CacheLaws.ErasedKeyIsGone` | CPPTools/include/drogon/CacheMap.h:387-396 | an erased key, or one never stored, is absent until it is stored |
| `CacheLaws.HooksRun` | CPPTools/include/drogon/CacheMap.h:267-396 | the insert hook runs once for every insert and for every modify of an absent key, the erase hook once for every erase |
| `CacheLaws.DestructionIsSilent` | CPPTools/include/drogon/CacheMap.h:148-166 | destruction expires no key and calls no hook |
| `Text.TrimRange` | CPPTools/include/httplib.h:2827-2836 | the window that is left is the text without blanks at either end; over blanks alone the bounds cross |
| `Text.Split` | CPPTools/include/httplib.h:2871-2896 | for any delimiter, a blank included, the callback gets the trimmed non-empty pieces between delimiters, in order |
| `Query.DecodeUrl` | CPPTools/include/httplib.h:2781-2816 | percent decoding, the %u form and malformed escapes included |
| `Query.EncodeQueryParam` | CPPTools/include/httplib.h:2728-2747 | every byte outside the unreserved set becomes a percent escape |
| `Query.DecodeEncode` | CPPTools/include/httplib.h:2728-2816 | decoding undoes encoding on every byte string, whether or not plus means blank |
| `Query.EncodeInjective` | CPPTools/include/httplib.h:2728-2747 | different values are encoded differently |
| `Query.DecodedUnchangedIff` | CPPTools/include/httplib.h:2781-2816 | text decodes to itself if and only if no complete escape begins in it, nor a plus sign where that means a blank |
| `QueryLaws.PlusIsBlank` | CPPTools/include/httplib.h:2808-2809 | a plus sign is read as a blank wherever it stands, or kept, and cuts the text for the decoder |
| `QueryLaws.NoPercentDecodes` | CPPTools/include/httplib.h:2785-2813 | text without percent signs keeps its length and all its characters but the plus signs |
| `QueryLaws.DecodingCuts` | CPPTools/include/httplib.h:2785-2813 | decoding goes part by part at every character that cannot continue an escape |
| `QueryLaws.EscapeDecodes` | CPPTools/include/httplib.h:2799-2803 | a percent sign and two hexadecimal digits, in either case, are the byte they name |
| `QueryLaws.PercentDecodes` | CPPTools/include/httplib.h:2786-2807 | a percent sign that begins no complete escape stands for itself |
| `QueryLaws.UnicodeDecodes` | CPPTools/include/httplib.h:2787-2794 | %uXXXX gives bytes that a UTF-8 decoder reads back as XXXX (section 3 of RFC 3629), and nothing for a surrogate |
| `QueryLaws.EncodedUnchangedIff` | CPPTools/include/httplib.h:2728-2747 | a value is unchanged if and only if it consists of letters, digits and the nine marks; the output has nothing else but percent signs |
| `QueryLaws.OneEncoded` | CPPTools/include/httplib.h:2728-2747 | any other byte becomes a percent sign and two digits in upper case |
| `QueryText.ParamsToQueryStr` | CPPTools/include/httplib.h:5064-5074 | key=value pairs joined by ampersands, in the order of the multimap |
| `QueryText.ParseQueryText` | CPPTools/include/httplib.h:5076-5097 | the pieces with a key, repeated pieces once, emplaced in key order after equal keys |
| `QueryText.QueryRoundTrip` | CPPTools/include/httplib.h:5064-5097 | writing any parameter multimap with plain keys and parsing it gives it back with exact duplicate pairs removed |
| `QueryText.QueryRoundTripIff` | CPPTools/include/httplib.h:5064-5097 | any parameter multimap survives if and only if all its keys are plain: not empty, without ampersand, equals sign and leading blank, and with nothing to decode; keys are written unencoded |
| `QueryText.OneParamRoundTripIff` | CPPTools/include/httplib.h:5064-5097 | in particular a single parameter |
| `QueryText.UnreservedIsPlain` | CPPTools/include/httplib.h:2728-2747 | every non-empty key of characters that the encoder leaves alone is plain |
| `QueryOrder.ParsedValues` | CPPTools/include/httplib.h:5076-5097 | for any text: under every key stand the values it had and then those of its pieces, in order of arrival and each piece once, and the keys stay in order |
| `QueryOrder.LessIff` | CPPTools/include/httplib.h:557 | the order of keys: a proper prefix first, otherwise the first different byte |
| `QueryOrder.FlagHasEmptyValue` | CPPTools/include/httplib.h:5084-5095 | a piece without an equals sign is a key with an empty value |
| `Base64.Base64Encode` | CPPTools/include/httplib.h:2643-2669 | for inputs of every length, with an accumulator that wraps at 32 bits, the output is the group-by-group encoding of section 4 of RFC 4648 |
| `Base64.LengthOfEncoding` | CPPTools/include/httplib.h:2643-2669 | the output has 4·ceil(n/3) characters |
| `Base64.DecodeEncoded` | CPPTools/include/httplib.h:2643-2669 | decoding the output gives back the input |
| `Base64.Accumulated` | CPPTools/include/httplib.h:2654-2656 | the accumulator knows the last two bytes, whatever it has lost at the other end |
| `MultipartParser.MultipartFormDataParser.BufFind` | CPPTools/include/httplib.h:5508-5534 | the first position of a pattern in the live window, or the window's size |
| `MultipartParser.MultipartFormDataParser.StartWith` | CPPTools/include/httplib.h:5494-5506 | whether the window holds the pattern at a position |
| `MultipartParser.MultipartFormDataParser.MoveToFront` | CPPTools/include/httplib.h:5539-5546 | moving the live bytes to the front keeps them |
| `MultipartParser.MultipartFormDataParser.BufAppend` | CPPTools/include/httplib.h:5536-5553 | appending extends the window by exactly the new bytes |
| `MultipartParser.MultipartFormDataParser.BufErase` | CPPTools/include/httplib.h:5555 | erasing drops a prefix of the window |
| `MultipartParser.MultipartFormDataParser.ParseHeaders` | CPPTools/include/httplib.h:5337-5416 | header lines up to the empty one, each callback and refusal in order |
| `HeaderLaws.FieldParses` | CPPTools/include/httplib.h:4469-4511 | a token, a colon and a value between blanks are accepted if and only if the value is a field value, and give the key and the decoded value, locations undecoded (section 5 of RFC 9110) |
| `HeaderLaws.AcceptedIsFieldLine` | CPPTools/include/httplib.h:4469-4511 | no other line is accepted |
| `HeaderLaws.CharacterClasses` | CPPTools/include/httplib.h:2507-2527 | the characters of keys and values |
| `HeaderLaws.FieldIsRecorded` | CPPTools/include/httplib.h:5352-5378 | every accepted line adds exactly its field at the end of the part's list; a Content-Type in any case sets the type, and only a Content-Disposition touches the names; a refused line changes nothing |
| `HeaderLaws.ContentUnchangedIff` | CPPTools/include/httplib.h:4500-4508 | the value is listed as written if and only if it is a location or nothing in it decodes |
| `MultipartParser.MultipartFormDataParser.ParseBody` | CPPTools/include/httplib.h:5413-5440 | content up to the delimiter, holding back as many bytes as the delimiter has |
| `MultipartParser.MultipartFormDataParser.ParseBoundary` | CPPTools/include/httplib.h:5441-5458 | what follows a delimiter: another part, the end, or more bytes needed |
| `MultipartParser.MultipartFormDataParser.Parse` | CPPTools/include/httplib.h:5318-5462 | a call on the buffer window is one run of the state machine on the window's bytes |
| `MultipartParser.MultipartFormDataParser.ParseAll` | CPPTools/include/httplib.h:5318-5462 | a caller's loop over pieces of a regular body ends as one call on the whole body |
| `MultipartSplit.SplittingIndependence` | CPPTools/include/httplib.h:5318-5462 | however a regular input is cut into calls: same part headers, same concatenated contents, same validity, same answer; what follows the closing delimiter may be any inert text |
| `MultipartSplit.CutOnce` | CPPTools/include/httplib.h:5318-5462 | one cut anywhere: the call on the rest resumes where one call would have gone on |
| `MultipartSplit.BodyExtend` | CPPTools/include/httplib.h:5413-5440 | content held back because a delimiter might begin in it is delivered later, once |
| `MultipartSplit.HeadersExtend` | CPPTools/include/httplib.h:5337-5416 | header lines that are complete are read the same, whatever comes later |
| `MultipartEpilogue.EpilogueIff` | CPPTools/include/httplib.h:5441-5458 | text after the closing delimiter goes unseen under every cut if and only if it is inert: after each of its line ends come complete header lines that are accepted, not empty and under 8192 bytes, and at most 8192 bytes of an unfinished one |
| `MultipartEpilogue.HarmfulShows` | CPPTools/include/httplib.h:5337-5458 | a cut that shows any other: a call refuses or another part appears |
| `MultipartEpilogue.EpilogueMatters` | CPPTools/include/httplib.h:5441-5458 | one such text, accepted whole and refused in two pieces |
| `MultipartEpilogue.OtherTextIsStuck` | CPPTools/include/httplib.h:5441-5458 | after a delimiter followed by neither a line end nor two dashes calls are accepted and nothing is parsed any more |
| `MultipartRoundTrip.SerializeMultipartFormdata` | CPPTools/include/httplib.h:5598-5641 | the serialized items and the closing boundary |
| `MultipartRoundTrip.DelimiterHasNoBorder` | CPPTools/include/httplib.h:5586-5596 | a delimiter from a valid boundary cannot overlap its own start |
| `MultipartRoundTrip.FindDelimiter` | CPPTools/include/httplib.h:5413-5440 | so the first delimiter after a content without one is the one that was written |
| `MultipartRoundTrip.DispositionHeaderLine` | CPPTools/include/httplib.h:5114-5136 | a serialized disposition line gives the name and the file name back |
| `MultipartExact.DispositionIff` | CPPTools/include/httplib.h:5381-5405 | it does so if and only if both are header text without semicolon and equals sign, at which the parser cuts the parameter list |
| `MultipartExact.SmuggledFileName` | CPPTools/include/httplib.h:5114-5136 | a name with a quote and a semicolon in it is read as a shorter name and a file name |
| `MultipartRoundTrip.TypeHeaderLine` | CPPTools/include/httplib.h:5359-5376 | a serialized type line gives the content type back |
| `MultipartNames.ExtendedFileName` | CPPTools/include/httplib.h:5397-5405 | a file name in the extended notation gives back the very bytes and overrides a plain one (section 3.2 of RFC 5987) |
| `MultipartNames.OtherCharsetIsRefused` | CPPTools/include/httplib.h:5397-5410 | with another character set the part is refused |
| `MultipartNames.NamelessIsRefused` | CPPTools/include/httplib.h:5385-5391 | so is a disposition without a name |
| `MultipartNames.EmptyExtendedIsRefused` | CPPTools/include/httplib.h:5397-5410 | and an extended file name with nothing behind the character set |
| `MultipartNames.LastValueCounts` | CPPTools/include/httplib.h:5123-5134 | of several values in one parameter the last counts, without its quotes |
| `MultipartNames.DispositionInAnyForm` | CPPTools/include/httplib.h:5376-5381 | neither letter case nor blanks matter for the form of a disposition |
| `MultipartNames.OtherDispositionIsIgnored` | CPPTools/include/httplib.h:5376-5381 | a disposition that is no form-data is recorded and has no other effect |
| `MultipartRoundTrip.MultipartRoundTrip` | CPPTools/include/httplib.h:5586-5641 | parsing what was serialized, cut into calls in any way, is valid and gives the same items, each with the list of the header fields that were written (section 5.1.1 of RFC 2046, section 4 of RFC 7578) |
| `MultipartRefusal.RefusedHeader` | CPPTools/include/httplib.h:5341-5351 | when the application refuses the header of a part, then under every cut the parts before it have arrived as a whole, this one is announced, and the body is refused |
| `MultipartRefusal.RefusedContent` | CPPTools/include/httplib.h:5413-5440 | the same for refused content of a body that arrives in one piece |
| `MultipartRefusal.PartIsItem` | CPPTools/include/httplib.h:5586-5641 | the parts that arrive are the items |
| `MultipartExact.MultipartRoundTripIff` | CPPTools/include/httplib.h:5586-5641 | for any list of items: they come back under every cut if and only if there is one, and each has a plain name, a plain file name, a content type that is a field value, header lines under 8192 bytes and no delimiter in its content |
| `MultipartExact.NotPlainShows` | CPPTools/include/httplib.h:5337-5458 | otherwise a cut is built under which a call refuses or a part differs, whatever line ends, parameters and delimiters the items hold |
| `MultipartExact.HeaderLineIsClean` | CPPTools/include/httplib.h:5359-5405 | no header line ever gives a part a name with a semicolon, an equals sign or a control character, nor a content type that is not a field value |
| `MultipartExact.BlockFileName` | CPPTools/include/httplib.h:5359-5405 | whatever lines a file name is cut into, the one that is read is plain or shorter |
| `Streams.SocketStream.Read` | CPPTools/include/httplib.h:6512-6556 | bytes handed out and bytes still in the read-ahead window are the bytes received, whatever the fragments and failures |
| `Streams.SocketStream.ReadSocket` | CPPTools/include/httplib.h:6523-6552 | small reads go through the read-ahead buffer, large ones past it, without loss |
| `Streams.SocketStream.Refill` | CPPTools/include/httplib.h:6530-6537 | one recv fills the empty buffer |
| `Streams.StreamLineReader.Append` | CPPTools/include/httplib.h:2964-2975 | a character moves from the fixed to the growable buffer without changing the line |
| `Streams.StreamLineReader.Getline` | CPPTools/include/httplib.h:2924-2962 | on a healthy connection the shortest prefix that ends in CRLF, or failure exactly when it exceeds the limit or the stream is empty; on any connection nothing is lost |
| `ChunkedCoding.FromIToHex` | CPPTools/include/httplib.h:2599-2607 | the hexadecimal digits of a size |
| `ChunkedCoding.SizeLineConverts` | CPPTools/include/httplib.h:4620-4629 | strtoul on a written size line gives the size back |
| `ChunkSizes.SizeLineIs` | CPPTools/include/httplib.h:4620-4629 | strtoul on any size line: blanks, sign, prefix and digits in either case, whatever follows; a minus sign wraps and too large a number saturates |
| `ChunkedTransfer.WriteData` | CPPTools/include/httplib.h:4818-4826 | all bytes, in order, over partial writes, or failure |
| `ChunkedTransfer.WriteContentChunked` | CPPTools/include/httplib.h:4931-5026 | the loop over provider rounds emits the chunks of every write, the last chunk and the trailer; a shutdown ends it after some whole round, and it still reports success |
| `ChunkedTransfer.ReadContentWithLength` | CPPTools/include/httplib.h:4561-4581 | exactly the next bytes, or failure when the stream ends first or the receiver refuses a piece |
| `ChunkedTransfer.ReadChunk` | CPPTools/include/httplib.h:4631-4641 | one chunk, its line end and the next size line; on any connection the content is what comes next |
| `ChunkedTransfer.ReadTrailer` | CPPTools/include/httplib.h:4654-4676 | the trailer lines up to the empty one, with both limits, and the fields they carry; on any connection nothing is read twice |
| `ChunkedCoding.TrailerIff` | CPPTools/include/httplib.h:4654-4676 | the lines of a list of plain fields are read back as that list, in order, if and only if they are within both limits, 100 lines of 8192 bytes; otherwise the body is refused |
| `ChunkInput.PiecesAreAccepted` | CPPTools/include/httplib.h:4611-4652 | chunks with size lines of any form, up to a line that announces no data, are read with all their data |
| `ChunkInput.AcceptedArePieces` | CPPTools/include/httplib.h:4611-4652 | conversely whatever is accepted consists of chunks that announce their data truly, each with its line end, and the body is their data |
| `ChunkedTransfer.ReadContentChunked` | CPPTools/include/httplib.h:4611-4680 | on a healthy connection and with a receiver that takes everything, whatever the fragments, the reader computes the decoding of the byte stream, over the 16-byte line buffer |
| `ChunkedCoding.WriterEmitsCoding` | CPPTools/include/httplib.h:4931-5026 | non-empty writes followed by done with any trailer, spread over rounds in any way, emit the chunked coding of the writes |
| `ChunkedCoding.CallsRoundTripIff` | CPPTools/include/httplib.h:4945-5005 | for any sequence of sink calls with plain trailer fields: decoding gives what was written and the trailer, with nothing left over, if and only if there is one done, with nothing but empty writes after it, and its trailer is within the limits |
| `ChunkedCoding.RoundsRoundTripIff` | CPPTools/include/httplib.h:5008-5025 | for any rounds: the loop reports success and the reader gets what was written, if and only if the calls that were made do that |
| `ChunkedCoding.EmptyWriteEndsUnclosed` | CPPTools/include/httplib.h:4945-4968 | a round that ends with an empty write: success is reported and the coding has no last chunk |
| `ChunkedCoding.ChunkedRoundTrip` | CPPTools/include/httplib.h:4611-4680 | decoding that coding delivers the concatenation of the writes and stops exactly at its end (section 7.1 of RFC 9112); a plain trailer comes back if and only if it is within the limits |
| `ChunkedTransfer.Transfer` | CPPTools/include/httplib.h:4931-5026 | from the sink calls of the writer to body and trailer at the reader, under any fragmentation: what was written, with nothing left over, if and only if the calls close the sink once and the trailer is within the limits; always so for non-empty writes followed by done |
| `ThreadPool.JobsRunOnceInOrder` | CPPTools/include/httplib.h:832-881 | over every interleaving: jobs are taken in the order accepted, each by one worker and at most once, and the queue keeps to its limit |
| `ThreadPool.SafeStep` | CPPTools/include/httplib.h:832-881 | every step keeps this invariant |
| `ThreadPool.LiveStep` | CPPTools/include/httplib.h:832-881 | every step but a push after shutdown keeps: a waiting job has a pending notification or a worker who is up |
| `ThreadPool.WakeupsAreNotLost` | CPPTools/include/httplib.h:832-881 | over every interleaving with a worker and no push accepted after shutdown: no wakeup is lost, and once all workers are gone the queue is empty |
| `ThreadPool.ShutdownDrains` | CPPTools/include/httplib.h:845-881 | after shutdown the workers stop after finitely many steps under any schedule, and then all have left and every accepted job has run |
| `ThreadPool.LastExitLeavesNothing` | CPPTools/include/httplib.h:867-874 | the step with which the last worker leaves finds the queue empty |
| `ThreadPool.AbandonedIffPushedLate` | CPPTools/include/httplib.h:832-843 | after that a job is abandoned if and only if it is pushed then: enqueue does not look at the shutdown flag |
| `ThreadPool.LatePushIsAbandoned` | CPPTools/include/httplib.h:832-843 | a concrete run with an abandoned job |
| `ThreadPool.PoolObject.Enqueue` | CPPTools/include/httplib.h:832-843 | the critical section is the push step: accepted exactly when there is no limit or the queue is below it |
| `ThreadPool.PushesAreAccepted` | CPPTools/include/httplib.h:832-843 | over every run in which the workers take nothing, exactly the pushes that there is room for are accepted, and all of them without a limit |
| `ThreadPool.NewPoolAccepts` | CPPTools/include/httplib.h:821-843 | in particular a new pool with limit k accepts exactly the first k |
| `ThreadPool.PoolObject.ShutdownSection` | CPPTools/include/httplib.h:845-850 | the critical section is the flag step |
| `ThreadPool.PoolObject.WorkerSection` | CPPTools/include/httplib.h:864-881 | the critical section takes the front job if there is one, exits on shutdown, and sleeps otherwise |
| `ClientSocket.SocketProtocol` | CPPTools/include/httplib.h:8065-8162 | over every interleaving of send and stop: the in-flight counter is the number of active send_ frames, all on the recorded thread; no assertion fails; a socket goes away only with nothing in flight or by the thread whose requests are |
| `ClientSocket.ConsistentStep` | CPPTools/include/httplib.h:8065-8162 | every step keeps this, and the assertions it runs into hold |
| `ClientSocket.FailedRequestCloses` | CPPTools/include/httplib.h:8136-8151 | in every reachable state a request that fails or whose connection is not kept leaves the socket closed until another send_, and a stop leaves it shut down or closed |
| `ClientSocket.NextRequest` | CPPTools/include/httplib.h:8065-8162 | the next request gets the socket of the one before it exactly if that one succeeded and kept it, nobody asked to stop, and the peer is there; or else a new one, or none |
| `ClientSocket.StopClosesAfterRequests` | CPPTools/include/httplib.h:9465-9486 | a stop during requests leaves the socket closed when they have ended, if no send_ was entered in between |
| `ClientSocket.StopForgottenIff` | CPPTools/include/httplib.h:8069-8071 | with no other reason to close, a stop is forgotten if and only if the last send_ entered after it got a socket |
| `ClientSocket.NestedSendForgetsStop` | CPPTools/include/httplib.h:8069-8071 | a concrete run with a redirected request |
| `ClientSocket.ClientImpl.EnterSection` | CPPTools/include/httplib.h:8066-8125 | the first critical section of send_ is the entering step |
| `ClientSocket.ClientImpl.LeaveSection` | CPPTools/include/httplib.h:8136-8151 | the scope exit of send_ is the leaving step: the socket is closed after a failure, on request, or when it is not kept, and untouched otherwise |
| `ClientSocket.ClientImpl.StopSection` | CPPTools/include/httplib.h:9465-9486 | stop either shuts the socket down and asks for it to be closed, or closes it |
| `ClientSocket.ClientImpl.CloseSocket` | CPPTools/include/httplib.h:8000-8017 | the socket is closed, its assertion being a precondition |
| `Redirect.CallIsBounded` | CPPTools/include/httplib.h:8176-8298 | whatever the servers answer, sends nest at most as deep as what is left of the redirect budget and the authentication budget together, plus one |
| `Redirect.BoundIsAttained` | CPPTools/include/httplib.h:8176-8298 | servers can make them nest exactly that deep |
| `Redirect.FreshRequestDepth` | CPPTools/include/httplib.h:721-725 | from a fresh request at most 26 deep, and 26 is possible |
| `Redirect.Client.Send` | CPPTools/include/httplib.h:8055-8063 | the tree of nested sends follows from what the network replied: a second try exactly if the peer may have closed the connection, on a closed socket; the recursion ends and the assertion that a lost peer means failure holds |
| `Redirect.Client.SendOnce` | CPPTools/include/httplib.h:8065-8162 | a failure leaves the socket closed; when the proxy answers instead of a connection, its answer is handed back |
| `Redirect.Client.HandleRequest` | CPPTools/include/httplib.h:8176-8251 | a redirect is followed exactly for a status between 300 and 400 of a client that follows them, and then a challenge of the response shown answered exactly if there are credentials and budget left |
| `Redirect.RedirectsAreFollowed` | CPPTools/include/httplib.h:8176-8298 | a client that follows redirects never hands back a redirect as a success |
| `Redirect.ChallengesAreAnswered` | CPPTools/include/httplib.h:8220-8251 | with credentials a challenge is handed back only after it was answered until the budget of 5 was used up |
| `Redirect.OthersAreHandedBack` | CPPTools/include/httplib.h:8213-8216 | a client that does not follow redirects hands back the status of the server, unless it answers a challenge |
| `Redirect.ClosedPeerIsRetried` | CPPTools/include/httplib.h:8055-8063 | a lost peer is reported only after a second try, and there is no second try otherwise |
| `Redirect.Client.FollowRedirect` | CPPTools/include/httplib.h:8253-8298 | a redirect with budget and a usable location is sent again, on this client or on a new one, for one unit of the budget; without either it fails |
| `Ranges.InsideIff` | CPPTools/include/httplib.h:5718-5750 | which ranges pass against a content length, by the positions named; unlike section 14.1.2 of RFC 9110 a suffix longer than the content does not |
| `Ranges.NormalIsRequested` | CPPTools/include/httplib.h:5718-5743 | a range that passes is rewritten to hold exactly the requested positions |
| `Ranges.LongSuffixIsRefused` | CPPTools/include/httplib.h:5727-5730 | where the code departs from the RFC: the positions asked for by a long suffix, and the refusal |
| `Ranges.CoalesceRanges` | CPPTools/include/httplib.h:5643-5697 | the blocks of some sorting of the kept ranges, the sort being free among equal starts |
| `Ranges.CoalescedCovers` | CPPTools/include/httplib.h:5666-5696 | coalescing keeps every position and adds none, stays inside the content, and orders the blocks |
| `Ranges.GapsIff` | CPPTools/include/httplib.h:5681-5692 | whatever the sort does with equal starts, the blocks are separated by gaps if and only if no range is asked for twice without an earlier-starting one reaching it |
| `Ranges.DistinctRangesAreSeparated` | CPPTools/include/httplib.h:5681-5692 | in particular when the ranges are all different |
| `Ranges.AnswerDependsOnSort` | CPPTools/include/httplib.h:5646-5649 | three ranges whose blocks depend on how the sort orders equal starts |
| `Ranges.CheckRanges` | CPPTools/include/httplib.h:5703-5768 | refused if and only if there are more than 1024, one lies outside the content, or more than two overlap an earlier one; ranges up to the offending one are rewritten |
| `Ranges.OverlapsCounts` | CPPTools/include/httplib.h:5747-5755 | the ranges that count as overlapping are those that share a position with an earlier one |
| `Ranges.RangeError` | CPPTools/include/httplib.h:5699-5775 | accepted ranges become blocks inside the content that hold exactly the requested positions; other statuses leave the ranges alone |
| `RangeBody.GetRangeOffsetAndLength` | CPPTools/include/httplib.h:5767-5775 | its assertions hold exactly for a range inside the content |
| `RangeBody.ProcessMultipartRangesData` | CPPTools/include/httplib.h:5791-5826 | for each of its three uses, the parts of the multipart/byteranges frame in order, and the list of its tokens; it runs into an assertion only if some range is not inside the content |
| `RangeBody.GetMultipartRangesDataLength` | CPPTools/include/httplib.h:5844-5860 | the counting pass gives the length of the frame that the writing pass sends, whatever the content |
| `RangeBody.MakeMultipartRangesData` | CPPTools/include/httplib.h:5828-5842 | the frame around a body held in memory |
| `RangeBody.WriteContent` | CPPTools/include/httplib.h:4834-4876 | the requested bytes, for every provider that writes between one and the asked number of bytes per call; a shutdown cuts them short and still reports success |
| `RangeBody.ApplyRanges` | CPPTools/include/httplib.h:7558-7579 | for content from a provider, the declared Content-Length, and a Content-Range exactly for status 206 with one range, from which a reader gets this range and the length of the content (section 14.4 of RFC 9110) |
| `RangeBody.ApplyRangesToBody` | CPPTools/include/httplib.h:7594-7614 | for a body in memory, what is left of it to send, and the same of its Content-Range |
| `RangeBody.ContentRangeReadsBack` | CPPTools/include/httplib.h:5777-5789 | the header field reads back as its range and length |
| `RangeBody.WriteContentWithProvider` | CPPTools/include/httplib.h:7132-7154 | for any ranges, checked or raw: the whole content, one range, or the frame, or a failed assertion; every token of the frame is one write, and the stream gets the text but for what those writes do not take |
| `RangeBody.SendBody` | CPPTools/include/httplib.h:7132-7579 | for any ranges and status: what is declared, and what is sent but for what the writes of tokens do not take; on a healthy stream that fills its room each loses exactly what exceeds it |
| `RangeBody.Respond` | CPPTools/include/httplib.h:7835-7843 | for any status, from the check of the ranges to the last byte: the assertions hold if and only if there are no ranges, or the status is 2xx, or every raw range is inside the content; a partial response declares the length of what answers the ranges, and writes that many bytes, and the right ones, if and only if every write of a frame token is whole, which they are for a single block, and on a healthy stream that fills its room if and only if every token fits it; a Content-Range names exactly the bytes that are sent |
| `RangeBody.ShortTokenWrites` | CPPTools/include/httplib.h:5864-5877 | two blocks on a healthy stream that takes one byte at a time: the response finishes with fewer bytes than declared |
| `RangeBody.SentTokensFit` | CPPTools/include/httplib.h:5791-5826 | no token is longer than the frame, so room for the frame is enough |
| `RangeBody.UncheckedRange` | CPPTools/include/httplib.h:5699-5700 | a raw range that a response with status 404 leaves unchecked |
| `RangeBody.FrameHasLength` | CPPTools/include/httplib.h:5791-5826 | the length of a frame, from the positions, the content length and the lengths of boundary and type alone |
| `RangeBody.LengthAgreesIff` | CPPTools/include/httplib.h:7562-7579 | exactly when the text to be sent is as long as declared: without ranges, or with checked ranges for status 206, for one range that is everything, or for several whose bytes and frame add up to the full length by that formula; what short writes of tokens take away from it is the subject of `Respond` |
| `RangeBody.OneByteOfTen` | CPPTools/include/httplib.h:7562-7579 | one byte sent and ten declared, for status 200 |
| `RangeBody.FrameReadsBack` | CPPTools/include/httplib.h:5791-5826 | a reader that takes each range from its part header gets every range and its bytes back, in order |
| `PathParams.Compile` | CPPTools/include/httplib.h:6621-6668 | refused exactly when a parameter name repeats; otherwise the fragments and names of the pattern |
| `PathParams.CompiledMeans` | CPPTools/include/httplib.h:6638-6667 | the names are the segments after the first that begin with a colon, and filling the fragments gives the pattern with values in their places |
| `PathParams.Match` | CPPTools/include/httplib.h:6670-6711 | the loop over fragments computes whether the whole path matches and the value of every parameter |
| `PathParams.PathMatchesIff` | CPPTools/include/httplib.h:6670-6711 | a path that is the pattern with slash-free values, up to one slash at the end of a pattern that ends in a parameter, matches with these values; and no other path does, if fragments are compared as wholes |
| `PathParams.RouteIsExactIff` | CPPTools/include/httplib.h:6670-6711 | a route matches exactly its instances, over all paths and values, if and only if no fragment of it has a NUL before its last character |
| `PathParams.PlainRouteIsExact` | CPPTools/include/httplib.h:6670-6711 | in particular when the pattern has no NUL |
| `PathParams.RouteRoundTrip` | CPPTools/include/httplib.h:6621-6711 | compiling a pattern with distinct names and matching an instance gives every parameter its value |
| `PathParams.ComparesWholeIff` | CPPTools/include/httplib.h:6684-6687 | strncmp compares a fragment as a whole if and only if it has no NUL before its last character |
| `PathParams.EndsInParamIff` | CPPTools/include/httplib.h:6665-6667 | the compiled form shows whether the pattern ends in a parameter |

## Left out

- Cache: the tick interval is 1, so that the internal delay is delay + 1 (line 475 of `CacheMap.h`); other intervals round in floating point.
- Cache: at least one wheel and one bucket; without them the source sets `noWheels_` and never expires anything.
- Cache: a tick is one atomic step and user callbacks do not call back into the cache during it. The counter is raised before the wheels shift, so a call in between would compute with the new counter and the old wheels.
- Cache: `size_t` overflow of delays and tick counts, and the race between the cache's destructor and the end of the event loop.
- Cache: buckets are sets, so callbacks that fire on the same tick come in no particular order; the log of callbacks is compared as a multiset.
- CacheMap.CacheMap.Modify: the handler is a function of the value; a handler that also visits something else is not modelled.
- MultipartSplit.SplittingIndependence: the content receiver accepts everything and header lines stay under 8192 bytes; a receiver that refuses sees chunks that do depend on the cut, and so does the refusal of an over-long line.
- MultipartRoundTrip.MultipartRoundTrip: only plain items come back; `MultipartRoundTripIff` proves that no others do, and that an empty list, of which only the closing boundary is written, is not read as a body.
- Multipart: the two regular expressions for Content-Disposition are modelled by what they match; the parameter multimap by its first entry of each name; the multimap of a part's header fields by the list of its entries in order of arrival.
- ChunkedCoding.ChunkedRoundTrip: sizes stay below 2^64 - 1, and the fields of a trailer are plain: keys are tokens, values field values in which nothing decodes. The fields are listed in the order in which the writer's multimap yields them.
- Chunked transfer: no compression.
- Streams: `MSG_PEEK`, time-outs other than a wait that fails, and platform limits on the size of a read.
- Text.Split: the overloads with a limit on the number of pieces and with a terminating NUL in place of an end.
- Ranges: content lengths and positions are below 2^63; the parsing of the Range header; a response with both a body and a provider.
- RangeBody.WriteContentWithProvider: a frame token goes out in one write whose result the source ignores; where such a write is not whole, only the number of bytes on the stream is stated, not which they are.
- RangeBody: with assertions compiled out the source goes on with converted positions; the model stops there. A provider call that succeeds without writing anything would keep the source's loop going; such providers are excluded, as are upload progress callbacks.
- PathParams.Compile: builds without exceptions, where a repeated name is not refused.
- Base64: signed overflow of the accumulator is taken to wrap, as two's-complement hardware does.
- ThreadPool and client: a critical section is one atomic step; jobs that throw, thread creation, the client's destructor and TLS state are not part of the model.
- Redirect: headers, bodies, the location syntax and the digest itself; what matters is whether a redirect or a challenge can be followed.
- Not modelled: TLS, DNS, memory-mapped files, compression, regular-expression routing, Accept sorting, MIME and status tables, the overloads of Get, Post and Put, the MQTT and JNI parts, and the rest of Drogon's interfaces.
