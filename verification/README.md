# Verified models of a Docker Open vSwitch plugin and the protocols it stands on

The repository is a Docker network plugin that drives Open vSwitch through OVSDB. It carries the
libraries it depends on: a D-Bus client, an RPC client with a JSON codec, and a netlink library. This
project models the parts where correctness is hardest to see, and proves what they promise.

| file | module | subject |
|---|---|---|
| `Common.dfy` | `Common` | what several parts share: options, powers of two, counting in logs |
| `ByteOrder.dfy` | `ByteOrder` | integers as bytes in both byte orders, padding |
| `Signature.dfy` | `DBusType`, `DBusSignature` | D-Bus type trees, their printed signatures, the signature reader |
| `Crash.dfy` | `DBusSignatureCrash` | exactly which strings make the signature reader panic |
| `Wire.dfy` | `DBusWire` | values, the in-place wire format, a type-directed reader |
| `Format.dfy` | `DBusFormat` | the wire format told independently of the code, byte by byte |
| `RoundTrip.dfy` | `DBusRoundTrip` | reading back what was written |
| `Encoder.dfy`, `Decoder.dfy` | `DBusEncoder`, `DBusDecoder` | the stateful encoder and decoder, proved against the two functions above |
| `Reading.dfy` | `DBusReading` | exactly which bytes the decoder accepts, and as what |
| `Laws.dfy` | `DBusLaws` | positions modulo 8, depth checks, the encoder and the decoder together, elements without size |
| `Progress.dfy` | `DBusProgress` | the decoder on arbitrary bytes: typing and termination |
| `Message.dfy`, `MessageCodec.dfy` | `DBusMessage`, `DBusMessageCodec` | whole messages |
| `Validity.dfy` | `DBusValidity` | valid messages and names, and where the parts of a message are |
| `MapOrder.dfy` | `DBusMapOrder` | maps enumerated in any order, at every level of a value |
| `Rpc2.dfy` | `Rpc2Client` | call matching among concurrent senders and one read loop |
| `Rpc2Steps.dfy` | `Rpc2History` | what the client wrote, refused, served and reported, told by the steps of a run |
| `JsonIds.dfy` | `JsonRpcIds` | ids of incoming JSON-RPC requests |
| `JsonSteps.dfy` | `JsonRpcHistory` | what became of each request, told by the steps of a run |
| `Netlink.dfy` | `NetlinkAttributes` | netlink attribute trees |
| `NetlinkFormat.dfy` | `NetlinkFormat` | the bytes of attributes, and the parser on any bytes |
| `Serials.dfy` | `Serials`, `Addresses` | serial allocation, 128-bit increment |
| `OvsdbTables.dfy`, `Ovsdb.dfy` | `OvsdbTables`, `Ovsdb` | the database tables, commit, the plugin's four transactions |
| `OvsdbCache.dfy` | `OvsdbCache` | the mirrored cache |
| `OvsRuns.dfy` | `OvsRuns` | every run of those transactions, with a lagging cache |
| `OvsCacheLag.dfy` | `OvsCacheLag` | how far the cache lags |
| `OvsPlugin.dfy` | `OvsPlugin` | the plugin's operations as lists of database operations |
| `OvsNetworks.dfy` | `OvsNetworks` | networks and their lookup over runs |
| `OvsLifecycle.dfy` | `OvsLifecycle` | creating and deleting a network after any run |

How the parts are modelled:

- D-Bus. A type is a tree, a value a tree typed by it, a stream a byte sequence with a position. `Marshal`
  writes values in place, as the D-Bus Specification's section "Marshaling (Wire Format)" describes;
  `Unmarshal` reads them by type. The classes `Encoder` and `Decoder` work as the source does, with side
  buffers at a predicted offset and with a signature string that is sliced as decoding proceeds, and their
  contracts tie them to these two functions. What the two functions do is in turn pinned to descriptions that
  do not mention them: `DBusFormat.Wire` for the bytes written, `DBusReading.Reads` for the bytes accepted.
  Floating-point numbers are their 64-bit patterns. A Go map is
  the list of its entries in the order in which it is enumerated; `DBusMapOrder` shows that the order does
  not matter, for maps inside maps, variants, structures, arrays and message bodies too.
- rpc2. A step is one action of one goroutine between two points where another could be scheduled. Locks,
  the pending table, the shared request and the calls' one-slot channels are state; responses, read errors
  and write failures are arbitrary. The proof gives every program counter an assertion, shows that no step
  of another goroutine disturbs it, and conserves one token per call: done, due, or lost. `Rpc2History` and
  `JsonRpcHistory` then tell what happened from the steps of the run alone, by counting them.
- OVSDB. Tables are kept column by column. A commit checks strong references, collects unreferenced rows
  of tables that are not roots, and checks that names of bridges, ports and interfaces are unique (RFC 7047,
  section 3.2). The server may refuse any transaction, and the connection may fail before or after it is
  executed. Notifications are delivered in commit order, one at a time, at any later moment.

Where code and documentation differ, the model follows the code:

- `typeFor` erases the members of a structure; the model keeps them, because a variant carries its type.
- `alignment` gives booleans 1, not 4; the word that encodes them aligns itself (`Lookahead`, `BoolForm`).
- An empty dictionary "a{}" makes `validSingle` panic instead of rejecting the string. `CrashExact` and
  `ParseCrashExact` say exactly when: not every string that contains one panics, but every string that
  panics contains one (`SafeWithoutEmptyDict`).
- An array whose elements occupy no bytes is written without them and read back as empty
  (`SizelessArray`); announced with a positive length, it makes the decoder loop forever
  (`SizelessArrayLoops` says exactly when, `EmptyStructLoops` gives eight bytes that do).
- `EncodeTo` ignores errors of the body's encoder, and `DecodeMessage` compares a sum of lengths that wraps
  at 32 bits.
- The nesting limit of a printed type counts a dictionary once, the encoder and decoder count it twice.
- `deleteBridge` and `addOvsVethPort` report success if no reply arrives; attaching a port to a bridge that
  does not exist reports success and changes nothing (`AddPortNowhere`).

## Model

| member | source | states |
|---|---|---|
| `DBusSignature.FindMatching` | Godeps/_workspace/src/github.com/godbus/dbus/sig.go:219-232 | the loop returns the first index at which the bracket count returns to zero, or -1 exactly if there is none |
| `DBusSignature.MatchParen` | Godeps/_workspace/src/github.com/godbus/dbus/sig.go:201-207 | for every structure, whatever its members print to and whatever follows, the index found is that of its own closing parenthesis |
| `DBusSignature.MatchBrace` | Godeps/_workspace/src/github.com/godbus/dbus/sig.go:180-187 | the same for the brace of a dictionary |
| `DBusSignature.ValidSingle` | Godeps/_workspace/src/github.com/godbus/dbus/sig.go:169-217 | the recursive reader with its member loop computes `Valid`, of which exactness is proved below |
| `DBusSignature.ParseSignature` | Godeps/_workspace/src/github.com/godbus/dbus/sig.go:110-126 | the loop over single types computes `ParseVerdict` |
| `DBusSignature.ValidPrint` | Godeps/_workspace/src/github.com/godbus/dbus/sig.go:49-106 | completeness with its exact limit: a printed type followed by any r is accepted with remainder exactly r if it nests at most 64 deep, and rejected otherwise |
| `DBusSignature.ValidPrintAll` | Godeps/_workspace/src/github.com/godbus/dbus/sig.go:208-214 | the same for lists of types |
| `DBusSignature.ValidSound` | Godeps/_workspace/src/github.com/godbus/dbus/sig.go:169-217 | soundness: an accepted string is a printed type, within the depth limit, followed by the remainder |
| `DBusSignature.ValidAllSound` | Godeps/_workspace/src/github.com/godbus/dbus/sig.go:118-120 | the same for lists |
| `DBusSignature.PrintPrefixFree` | Godeps/_workspace/src/github.com/godbus/dbus/sig.go:49-106 | unique reading: if two printed types, each followed by something, are the same string, the types and the rests are equal |
| `DBusSignature.ValidSingleExact` | Godeps/_workspace/src/github.com/godbus/dbus/sig.go:169-217 | acceptance with remainder r if and only if the string is a type nested at most 64 deep followed by r; that type is unique |
| `DBusSignature.ParseSignatureExact` | Godeps/_workspace/src/github.com/godbus/dbus/sig.go:110-126 | acceptance if and only if the string is a printed list of types within the limits |
| `DBusSignatureCrash.CrashExact` | Godeps/_workspace/src/github.com/godbus/dbus/sig.go:169-217 | the reader panics if and only if, in reading order, an empty dictionary is the first thing wrong: at the front, below arrays, as the value of a dictionary with a valid key, or behind valid members of a closed structure |
| `DBusSignatureCrash.ListCrashExact` | Godeps/_workspace/src/github.com/godbus/dbus/sig.go:208-214 | the same for the member loop: some valid types and then such a string |
| `DBusSignatureCrash.ParseCrashExact` | Godeps/_workspace/src/github.com/godbus/dbus/sig.go:110-126 | `ParseSignature` panics if and only if the string has at most 255 characters and is some valid types followed by such a string |
| `DBusSignatureCrash.SafeWithoutEmptyDict` | Godeps/_workspace/src/github.com/godbus/dbus/sig.go:180-190 | a test before the call: a string that does not contain "a{}" makes neither reader panic |
| `DBusSignatureCrash.EmptyDictCrashes` | Godeps/_workspace/src/github.com/godbus/dbus/sig.go:180-190 | within the depth limit, "a{}" followed by anything makes the reader slice an empty string |
| `DBusSignatureCrash.CrashBehindTypes` | Godeps/_workspace/src/github.com/godbus/dbus/sig.go:110-126 | and so does it behind any list of valid types |
| `DBusSignature.TypeForPrint` | Godeps/_workspace/src/github.com/godbus/dbus/sig.go:236-257 | `typeFor` recovers the type a string starts with, ignoring the rest, although it cuts dictionaries at the last brace |
| `DBusSignature.TypesForPrint` | Godeps/_workspace/src/github.com/godbus/dbus/decoder.go:55-63 | a printed list of types is cut up into exactly that list |
| `DBusWire.Unmarshal` | Godeps/_workspace/src/github.com/godbus/dbus/decoder.go:67-221 | on any bytes, a successful read takes at most what is there, and at least one byte unless the type has no size |
| `DBusFormat.PutUintAt` | Godeps/_workspace/src/github.com/godbus/dbus/encoder.go:57-61 | byte i of a number, counted from the low-order end, is its i-th digit to base 256: little-endian numbers have it at i, big-endian ones at w-1-i |
| `DBusFormat.GetUintSum` | Godeps/_workspace/src/github.com/godbus/dbus/decoder.go:36-41 | a number read is the sum of its bytes by their weight |
| `DBusFormat.GetUintExact` | Godeps/_workspace/src/github.com/godbus/dbus/decoder.go:36-41 | it is the one number below 256^w whose digits the bytes are |
| `DBusFormat.SignatureSpelled` | Godeps/_workspace/src/github.com/godbus/dbus/sig.go:49-106 | the letters and brackets of signatures, as characters |
| `DBusFormat.WireExact` | Godeps/_workspace/src/github.com/godbus/dbus/encoder.go:77-208 | for every well-typed value, position and byte order, what is written is the one byte sequence that the format allows: zeros up to the boundary of the type, numbers in their width and order, texts and signatures with their length and a final zero, arrays and maps with the number of bytes of their elements, entries at multiples of eight, variants with their signature |
| `DBusFormat.GapExact` | Godeps/_workspace/src/github.com/godbus/dbus/encoder.go:34-54 | the padding is the one run of zeros, shorter than n, that ends at a multiple of n |
| `DBusReading.ReadExact` | Godeps/_workspace/src/github.com/godbus/dbus/decoder.go:67-221 | on any bytes: the decoder returns v and takes n bytes if and only if the first n bytes are accepted as v; booleans are 0 or 1, signatures valid, nesting within 64, arrays read up to or past the announced end, keys of a key type |
| `DBusReading.LastWins` | Godeps/_workspace/src/github.com/godbus/dbus/decoder.go:176-185 | of several entries with one key, the map read holds the last |
| `DBusRoundTrip.LeafRoundTrip` | Godeps/_workspace/src/github.com/godbus/dbus/encoder.go:79-123 | every number, boolean, string, path and signature is read back, whatever follows |
| `DBusRoundTrip.CarriedSignature` | Godeps/_workspace/src/github.com/godbus/dbus/decoder.go:144-162 | a variant's signature of at most 255 characters is accepted and denotes the type it was printed from |
| `DBusRoundTrip.MarshalNonEmpty` | Godeps/_workspace/src/github.com/godbus/dbus/encoder.go:77-208 | a value of a type with size occupies at least one byte |
| `DBusRoundTrip.RoundTrip` | Godeps/_workspace/src/github.com/godbus/dbus/decoder.go:67-221 | for every in-domain value, byte order, start position, depth and trailing bytes, reading its bytes gives it back and takes exactly them if it is nested within the limit, and fails otherwise |
| `DBusRoundTrip.ItemsRoundTrip` | Godeps/_workspace/src/github.com/godbus/dbus/decoder.go:188-200 | the elements of an array, read until the announced end |
| `DBusRoundTrip.MembersRoundTrip` | Godeps/_workspace/src/github.com/godbus/dbus/decoder.go:201-217 | the members of a structure, and the arguments of `Decode` |
| `DBusRoundTrip.EntriesRoundTrip` | Godeps/_workspace/src/github.com/godbus/dbus/decoder.go:165-187 | the entries of a map with distinct keys, in the order written |
| `DBusRoundTrip.UpsertFresh` | Godeps/_workspace/src/github.com/godbus/dbus/decoder.go:184-184 | assigning a key that is not present, under Go's equality of map keys, adds one entry |
| `DBusEncoder.RoundUp` | Godeps/_workspace/src/github.com/godbus/dbus/encoder.go:47-54 | adding n-1 and masking reaches the next multiple of n: it adds exactly the padding |
| `DBusEncoder.Encoder.AlignTo` | Godeps/_workspace/src/github.com/godbus/dbus/encoder.go:34-43 | writes exactly the padding, and the new position needs none |
| `DBusEncoder.Lookahead` | Godeps/_workspace/src/github.com/godbus/dbus/encoder.go:130-133 | the predicted offset of the first element is where it lands when written in place, for booleans too |
| `DBusEncoder.Encoder.Encode` | Godeps/_workspace/src/github.com/godbus/dbus/encoder.go:77-208 | succeeds exactly on values within the depth limit whose maps have key types and no NaN key, and then appends exactly the bytes of in-place writing at the current position and advances by their number |
| `DBusEncoder.Encoder.EncodeArray` | Godeps/_workspace/src/github.com/godbus/dbus/encoder.go:126-147 | the side buffer refines in-place writing: length, padding and elements as if written directly |
| `DBusEncoder.Encoder.EncodeItems` | Godeps/_workspace/src/github.com/godbus/dbus/encoder.go:138-140 | the element loop |
| `DBusEncoder.Encoder.EncodeMap` | Godeps/_workspace/src/github.com/godbus/dbus/encoder.go:176-204 | the same for maps, whose entries are aligned to 8 |
| `DBusEncoder.Encoder.EncodeEntries` | Godeps/_workspace/src/github.com/godbus/dbus/encoder.go:193-197 | the entry loop, which fails on a NaN key, whose value `MapIndex` does not find |
| `DBusEncoder.Encoder.EncodeVariant` | Godeps/_workspace/src/github.com/godbus/dbus/encoder.go:164-167 | signature, then value, one level deeper |
| `DBusEncoder.Encoder.EncodeMembers` | Godeps/_workspace/src/github.com/godbus/dbus/encoder.go:65-73 | values one after the other, as structure members or arguments |
| `DBusDecoder.Decoder.AlignTo` | Godeps/_workspace/src/github.com/godbus/dbus/decoder.go:25-34 | skips exactly the padding, or fails on a short input |
| `DBusDecoder.Decoder.Decode` | Godeps/_workspace/src/github.com/godbus/dbus/decoder.go:67-221 | driven by the printed signature of t, it returns, consumes and leaves exactly what the type-directed reader of t says, on any input |
| `DBusDecoder.Decoder.DecodeVariant` | Godeps/_workspace/src/github.com/godbus/dbus/decoder.go:144-162 | the signature is read from the input, must be one valid type, and drives the decoding of the value |
| `DBusDecoder.Decoder.DecodeItems` | Godeps/_workspace/src/github.com/godbus/dbus/decoder.go:195-199 | the element loop agrees with the recursive reader, or never ends exactly where that says so |
| `DBusDecoder.Decoder.DecodeEntries` | Godeps/_workspace/src/github.com/godbus/dbus/decoder.go:176-185 | the map loop, later keys replacing earlier ones |
| `DBusDecoder.Decoder.DecodeMembers` | Godeps/_workspace/src/github.com/godbus/dbus/decoder.go:207-216 | cutting one type off the signature at a time decodes the members in order |
| `DBusLaws.MarshalMod8` | Godeps/_workspace/src/github.com/godbus/dbus/encoder.go:47-54 | a value's bytes depend on its start position only modulo 8 |
| `DBusLaws.DepthAgreement` | Godeps/_workspace/src/github.com/godbus/dbus/encoder.go:127-181 | on in-domain values the encoder's nesting checks and the decoder's accept the same |
| `DBusLaws.EncodeThenDecode` | Godeps/_workspace/src/github.com/godbus/dbus/decoder.go:67-221 | the stateful encoder and decoder together: same value, same final position, exactly the suffix left; the encoder refuses a value if and only if it nests too deep, and then the decoder, run on the bytes that the value would have, refuses those |
| `DBusMapOrder.MapExact` | Godeps/_workspace/src/github.com/godbus/dbus/encoder.go:185-197 | the map that a list of distinct entries denotes holds exactly those entries |
| `DBusMapOrder.MapOrderIrrelevant` | Godeps/_workspace/src/github.com/godbus/dbus/encoder.go:185-197 | all enumerations of the entries of a map mean the same map |
| `DBusMapOrder.DepthByMeaning` | Godeps/_workspace/src/github.com/godbus/dbus/decoder.go:144-217 | whether a value nests within the limit depends on its meaning alone, not on how its maps are enumerated |
| `DBusMapOrder.AnyMapOrder` | Godeps/_workspace/src/github.com/godbus/dbus/decoder.go:67-221 | two values of any type that differ only in the order of their maps, at any level, written anywhere: both nest within the limit or neither, and both decode to values of the same meaning, or both fail |
| `DBusMapOrder.MessageMapOrder` | Godeps/_workspace/src/github.com/godbus/dbus/message.go:118-246 | if a message can be sent, so can one whose body enumerates its maps otherwise at any level, and what is received means the same |
| `DBusLaws.SizelessArray` | Godeps/_workspace/src/github.com/godbus/dbus/decoder.go:188-200 | an array of elements without size always decodes as empty |
| `DBusProgress.NoEmptyStructHasSize` | Godeps/_workspace/src/github.com/godbus/dbus/decoder.go:201-217 | a type without empty structures has size, and so have the elements of its arrays |
| `DBusProgress.UnmarshalFair` | Godeps/_workspace/src/github.com/godbus/dbus/decoder.go:144-217 | on any bytes: a decoded value is typed by the signature with valid signatures inside; a loop that never ends is due to an array of elements without size in the outer signature or in one that the decoder read from the bytes and followed |
| `DBusProgress.DecodedTyped` | Godeps/_workspace/src/github.com/godbus/dbus/decoder.go:67-221 | what was decoded is well typed |
| `DBusProgress.DecodingEnds` | Godeps/_workspace/src/github.com/godbus/dbus/decoder.go:43-65 | if no structure is empty, in the outer signature or in those that the decoder reads from the bytes and follows, decoding ends, and success takes at least one byte |
| `DBusProgress.SizelessArrayLoops` | Godeps/_workspace/src/github.com/godbus/dbus/decoder.go:188-200 | reading an array of elements without size never ends if and only if its length and padding are there, the announced length is positive and the nesting of the element fits the depth limit |
| `DBusProgress.EmptyStructLoops` | Godeps/_workspace/src/github.com/godbus/dbus/decoder.go:196-199 | eight bytes, followed by anything, on which the signature "a()" makes the decoder loop forever |
| `DBusMessage.HeadSplit` | Godeps/_workspace/src/github.com/godbus/dbus/message.go:210-237 | one encoder from position 0 writes what decoders restarted at 1 and 12 read |
| `DBusMessage.AllHeadersBack` | Godeps/_workspace/src/github.com/godbus/dbus/message.go:172-175 | the header map is recovered from any enumeration of it |
| `DBusMessage.BodyTypes` | Godeps/_workspace/src/github.com/godbus/dbus/message.go:189-198 | a Signature header that names the body's types is read back as those types |
| `DBusValidity.PathExact` | Godeps/_workspace/src/github.com/godbus/dbus/dbus.go:135-162 | a path is valid if and only if it is a slash, or elements of letters, digits and underscores with a slash before each |
| `DBusValidity.InterfaceExact` | Godeps/_workspace/src/github.com/godbus/dbus/dbus.go:211-233 | an interface or error name is valid if and only if it is two or more elements with dots between them, none starting with a digit, and at most 255 characters long |
| `DBusValidity.MemberExact` | Godeps/_workspace/src/github.com/godbus/dbus/dbus.go:236-253 | the same for member names, which are one element |
| `DBusValidity.ValidExact` | Godeps/_workspace/src/github.com/godbus/dbus/message.go:250-296 | a message is valid if and only if its flags are 0 to 3, its type is 1 to 4, its fields are 1 to 9, of the right types and well named, method calls have fields 1 and 3, replies 5, errors 4 and 5, signals 1, 2 and 3, and a body comes with field 8 |
| `DBusValidity.HeaderAdded` | Godeps/_workspace/src/github.com/godbus/dbus/message.go:257-264 | a further header keeps a message valid if and only if it is of the right type and well named |
| `DBusValidity.MessageLayout` | Godeps/_workspace/src/github.com/godbus/dbus/message.go:206-237 | where the parts of every message are: order mark, type, flags, version 1, length of the body, serial, length of the headers, headers from 16 on, zeros to a multiple of eight, body |
| `DBusValidity.ReplyBytes` | Godeps/_workspace/src/github.com/godbus/dbus/message.go:206-237 | every byte of a method reply whose only header is the serial it replies to |
| `DBusValidity.ReplyDelivered` | Godeps/_workspace/src/github.com/godbus/dbus/message.go:118-246 | such a reply is valid, sent, and received unchanged |
| `DBusValidity.ReceivedValid` | Godeps/_workspace/src/github.com/godbus/dbus/message.go:118-201 | whatever arrives, a message that comes out is valid and began with an order mark |
| `DBusValidity.LongRefused` | Godeps/_workspace/src/github.com/godbus/dbus/message.go:150-160 | a message whose announced lengths plus 16 exceed 2^27, modulo 2^32, is refused |
| `DBusValidity.LastHeader` | Godeps/_workspace/src/github.com/godbus/dbus/message.go:172-175 | of several headers of one field the last one counts |
| `DBusMessage.HeaderArrayBack` | Godeps/_workspace/src/github.com/godbus/dbus/message.go:162-170 | the header array written at position 12 is read back there, whatever follows |
| `DBusMessage.MessageRoundTrip` | Godeps/_workspace/src/github.com/godbus/dbus/message.go:118-246 | for every valid sendable message of at most 2^27 bytes, header order and trailing bytes, parsing its bytes returns the same message and takes exactly them |
| `DBusMessageCodec.EncodeTo` | Godeps/_workspace/src/github.com/godbus/dbus/message.go:206-246 | refuses invalid and oversized messages; otherwise writes the bytes of the message for the header order that came up |
| `DBusMessageCodec.DecodedSignature` | Godeps/_workspace/src/github.com/godbus/dbus/message.go:189-194 | the Signature header of a valid decoded message is a valid signature, on any input |
| `DBusMessageCodec.CollectHeaders` | Godeps/_workspace/src/github.com/godbus/dbus/message.go:172-175 | the loop builds the map in which later fields replace earlier ones |
| `DBusMessageCodec.DecodeMessage` | Godeps/_workspace/src/github.com/godbus/dbus/message.go:118-201 | returns and leaves exactly what the specification `ParseMessage` says, on any input |
| `DBusMessageCodec.SendThenReceive` | Godeps/_workspace/src/github.com/godbus/dbus/message.go:118-246 | a sendable message is sent exactly if it is valid and short enough, and is then received unchanged with the rest of the stream unread |
| `Rpc2Client.KeyClash` | Godeps/_workspace/src/github.com/cenkalti/rpc2/client.go:299-300 | two registrations share a sequence number only if 2^64 others lie between them |
| `Rpc2Client.OwnLocal` | Godeps/_workspace/src/github.com/cenkalti/rpc2/client.go:287-331 | each step of a goroutine establishes the assertion of its next point: locks held, number assigned, request prepared |
| `Rpc2Client.OtherLocal` | Godeps/_workspace/src/github.com/cenkalti/rpc2/client.go:287-331 | and disturbs no other goroutine's assertion |
| `Rpc2Client.OwnCall` | Godeps/_workspace/src/github.com/cenkalti/rpc2/client.go:287-318 | each step of send conserves the one token of its call |
| `Rpc2Client.OtherCall` | Godeps/_workspace/src/github.com/cenkalti/rpc2/client.go:287-318 | and of every other call, except that a registration over a pending entry loses that call |
| `Rpc2Client.ReaderCall` | Godeps/_workspace/src/github.com/cenkalti/rpc2/client.go:72-117 | every step of the read loop, of `readResponse` and of the final loop conserves every call's token |
| `Rpc2Client.RunInv` | Godeps/_workspace/src/github.com/cenkalti/rpc2/client.go:72-117 | the invariant holds after every run from a new client |
| `Rpc2Client.DoneAtMostOnce` | Godeps/_workspace/src/github.com/cenkalti/rpc2/client.go:257-266 | in every run no call's `done` runs twice, and no reply is dropped by a one-slot channel |
| `Rpc2Client.DoneExactlyOnce` | Godeps/_workspace/src/github.com/cenkalti/rpc2/client.go:95-112 | once the read loop has ended and no send is in progress, `done` has run exactly once for a call if and only if its entry was not overwritten; none is in the first 2^64 registrations |
| `Rpc2Client.ReplyMatching` | Godeps/_workspace/src/github.com/cenkalti/rpc2/client.go:174-212 | however responses are ordered, repeated or invented, one numbered k completes only the call registered as k, which is unique before the numbers wrap |
| `Rpc2Client.ZeroNeverPending` | Godeps/_workspace/src/github.com/cenkalti/rpc2/client.go:41-49 | number 0 names no pending call before the numbers wrap |
| `Rpc2Client.RequestsAreGenuine` | Godeps/_workspace/src/github.com/cenkalti/rpc2/client.go:304-331 | every request written carries its own caller's number, or 0 for a notification, although all use one shared request |
| `Rpc2History.WireExact` | Godeps/_workspace/src/github.com/cenkalti/rpc2/client.go:304-331 | in every run the requests on the wire are exactly those that steps wrote, in that order |
| `Rpc2History.RequestOnce` | Godeps/_workspace/src/github.com/cenkalti/rpc2/client.go:304-331 | a goroutine has exactly as many requests on the wire as steps that wrote one, at most one, numbered as its call or 0 for a notification |
| `Rpc2History.RegistrationOrder` | Godeps/_workspace/src/github.com/cenkalti/rpc2/client.go:287-307 | the requests of calls are written in the order in which the calls were registered |
| `Rpc2History.CallsAttempted` | Godeps/_workspace/src/github.com/cenkalti/rpc2/client.go:287-307 | every call sent is registered or refused, and every call registered is handed to the codec, exactly once, unless still on its way |
| `Rpc2History.NotificationsAttempted` | Godeps/_workspace/src/github.com/cenkalti/rpc2/client.go:320-331 | the same for notifications, dropped only if the client is closing or shut down |
| `Rpc2History.RefusedExactly` | Godeps/_workspace/src/github.com/cenkalti/rpc2/client.go:292-298 | a call is completed with ErrShutdown, or about to be, if and only if it came to register after closing or shutdown, and registered if and only if it came before |
| `Rpc2History.EndsExactly` | Godeps/_workspace/src/github.com/cenkalti/rpc2/client.go:72-117 | the client is closing if and only if Close took hold, the read loop over if and only if an error was read or a request could not be handled, and shut down only then |
| `Rpc2History.RepliesServed` | Godeps/_workspace/src/github.com/cenkalti/rpc2/client.go:174-212 | every response read is looked up exactly once, or about to be, and a call is completed by response k, or about to be, if and only if such a lookup found it |
| `Rpc2History.FailuresReported` | Godeps/_workspace/src/github.com/cenkalti/rpc2/client.go:308-317 | every failed write looks its call up again exactly once, or is about to, and the call is completed with that error, or about to be, if and only if it was still pending |
| `Rpc2History.LoopBlamed` | Godeps/_workspace/src/github.com/cenkalti/rpc2/client.go:95-112 | a call is completed with the error of the loop only if the loop has ended and the client is shut down |
| `Rpc2History.ReceivedExactly` | Godeps/_workspace/src/github.com/cenkalti/rpc2/client.go:251-255 | a reply has left its channel if and only if its caller took it |
| `Rpc2Client.NoDeadlock` | Godeps/_workspace/src/github.com/cenkalti/rpc2/client.go:72-117 | the holder of `mutex` can always go on, and so can the holder of `sending` once `mutex` is free |
| `JsonRpcIds.JsonCodec.ReadHeader` | Godeps/_workspace/src/github.com/cenkalti/rpc2/jsonrpc/jsonrpc.go:97-117 | numbers a request and saves its id; a notification is numbered 0 and changes nothing |
| `JsonRpcIds.JsonCodec.TakeId` | Godeps/_workspace/src/github.com/cenkalti/rpc2/jsonrpc/jsonrpc.go:189-197 | returns and forgets the saved id, or reports an invalid number |
| `JsonRpcIds.RespondInv` | Godeps/_workspace/src/github.com/cenkalti/rpc2/client.go:150-169 | answering one request leaves every other request's saved id in place |
| `JsonRpcIds.RunInv` | Godeps/_workspace/src/github.com/cenkalti/rpc2/client.go:119-172 | the invariant holds after every run, of any length: every id received is in the table, overwritten or taken, exactly one of these |
| `JsonRpcIds.NoIdTwice` | Godeps/_workspace/src/github.com/cenkalti/rpc2/jsonrpc/jsonrpc.go:189-210 | in every run no id received is sent twice, and every response carries one |
| `JsonRpcHistory.OwnIdOnce` | Godeps/_workspace/src/github.com/cenkalti/rpc2/jsonrpc/jsonrpc.go:189-210 | before the numbers wrap, in whatever order handlers finish: a response carries the id of its own request, no request is answered twice and a notification never; a request is answered if and only if its response was written; and a finished one was answered if and only if it has an id and no step failed to read its parameters or to write its response |
| `JsonRpcHistory.AnsweredExactly` | Godeps/_workspace/src/github.com/cenkalti/rpc2/client.go:119-172 | in every run, of any length: a finished request was answered with its own id if and only if it has one, its entry was neither overwritten nor taken by another request of its number, it is not a handled request numbered 0, and no step failed to read its parameters or to write its response |
| `JsonRpcHistory.RequestsRead` | Godeps/_workspace/src/github.com/cenkalti/rpc2/jsonrpc/jsonrpc.go:97-117 | the requests are those whose headers were read, in that order, with the ids they came with, numbered from 1 on modulo 2^64, and 0 for notifications |
| `JsonRpcHistory.RequestStages` | Godeps/_workspace/src/github.com/cenkalti/rpc2/client.go:119-172 | no stage is skipped: every request read is dispatched, every one dispatched without error gets its response, and every response that finds an id is encoded, exactly once, unless about to be |
| `JsonRpcHistory.OutcomeExactly` | Godeps/_workspace/src/github.com/cenkalti/rpc2/client.go:119-172 | how a request ended is decided by the steps: badly formed if and only if its parameters could not be read, answered if and only if its response was written, unsent if and only if that write failed |
| `JsonRpcHistory.LoopEndsExactly` | Godeps/_workspace/src/github.com/cenkalti/rpc2/client.go:72-93 | the read loop has ended if and only if an error was read, parameters could not be read, there was no id to refuse a request with, or a refusal could not be written; and it is busy exactly with the request it dispatches or refuses |
| `JsonRpcIds.RefusalEnds` | Godeps/_workspace/src/github.com/cenkalti/rpc2/client.go:119-127 | answering a request of an unknown method ends the read loop if and only if its number has no saved id; before the numbers wrap, if and only if it is a notification |
| `JsonRpcIds.WrappedRequestUnanswered` | Godeps/_workspace/src/github.com/cenkalti/rpc2/jsonrpc/jsonrpc.go:112-115 | a run from the start in which the 2^64th request with an id is numbered 0, handled and never answered |
| `NetlinkAttributes.RtaAlign` | Godeps/_workspace/src/github.com/vishvananda/netlink/nl/nl_linux.go:96-98 | the next multiple of four |
| `NetlinkAttributes.LenOf` | Godeps/_workspace/src/github.com/vishvananda/netlink/nl/nl_linux.go:131-142 | the accumulating loop computes `Len` |
| `NetlinkAttributes.SerSize` | Godeps/_workspace/src/github.com/vishvananda/netlink/nl/nl_linux.go:149-150 | an attribute occupies exactly rtaAlignOf(Len()) bytes, and its length covers header and value |
| `NetlinkFormat.AttrLayout` | Godeps/_workspace/src/github.com/vishvananda/netlink/nl/nl_linux.go:146-170 | bytes 0 and 1 of an attribute are its length and bytes 2 and 3 its type, in the given byte order; its data from byte 4 on, zeros to a multiple of four, then the children |
| `NetlinkAttributes.KidRegion` | Godeps/_workspace/src/github.com/vishvananda/netlink/nl/nl_linux.go:157-163 | child i occupies its own region, which holds exactly its bytes, ends where the next begins and lies within the parent |
| `NetlinkAttributes.Serialize` | Godeps/_workspace/src/github.com/vishvananda/netlink/nl/nl_linux.go:146-170 | the buffer filled in place equals the attribute's bytes; every copy stays within it |
| `NetlinkAttributes.ParseRouteAttr` | Godeps/_workspace/src/github.com/vishvananda/netlink/nl/nl_linux.go:404-424 | the shrinking loop computes `Parse`, its error and the slice panic included |
| `NetlinkFormat.ParseExact` | Godeps/_workspace/src/github.com/vishvananda/netlink/nl/nl_linux.go:404-424 | on any bytes: attributes are returned if and only if they are those of the bytes and less than a header is left; an error if and only if, behind some attributes, a length is below four or beyond the end; a slice out of range if and only if a length that fits is rounded up beyond the end |
| `NetlinkAttributes.ParseLevel` | Godeps/_workspace/src/github.com/vishvananda/netlink/nl/nl_linux.go:404-416 | parsing one level gives the type and value of each attribute on it, in order |
| `NetlinkAttributes.TreeRoundTrip` | Godeps/_workspace/src/github.com/vishvananda/netlink/nl/nl_linux.go:131-170 | for every tree whose length and types fit in 16 bits, parsing the value of its root level by level past the aligned fixed data rebuilds the tree |
| `NetlinkAttributes.ForestRoundTrip` | Godeps/_workspace/src/github.com/vishvananda/netlink/nl/nl_linux.go:404-424 | the same for a list of trees |
| `NetlinkAttributes.BytesRoundTrip` | Godeps/_workspace/src/github.com/vishvananda/netlink/nl/nl_linux.go:404-424 | from the bytes of any list of such trees, parsing succeeds and rebuilds the list |
| `NetlinkAttributes.SerializeAll` | Godeps/_workspace/src/github.com/vishvananda/netlink/nl/nl_linux.go:177-197 | the serialised attributes of a request, one after the other |
| `NetlinkAttributes.SendThenRebuild` | Godeps/_workspace/src/github.com/vishvananda/netlink/nl/nl_linux.go:146-197 | end to end: what the serialiser and the parser do to any list of such trees gives the list back |
| `NetlinkAttributes.FitsExactly` | Godeps/_workspace/src/github.com/vishvananda/netlink/nl/nl_linux.go:165-168 | an attribute is parsed back as itself if and only if its length fits in 16 bits |
| `Serials.Allocator.GetSerial` | Godeps/_workspace/src/github.com/godbus/dbus/conn.go:216-226 | ends whenever some serial is free, with the first free one in cyclic 32-bit order, never 0 |
| `Serials.Allocator.Release` | Godeps/_workspace/src/github.com/godbus/dbus/conn.go:393-399 | frees a serial that was issued, and never 0 |
| `Serials.FirstFreeUnique` | Godeps/_workspace/src/github.com/godbus/dbus/conn.go:219-222 | the first free serial is unique |
| `Serials.NeverZeroNorUsed` | Godeps/_workspace/src/github.com/godbus/dbus/conn.go:161-162 | no history of allocations and releases issues 0 or a serial still in use |
| `Addresses.IpIncrement` | ovs/utils.go:83-95 | in place, the 16 bytes become the next big-endian number; all ones stay; bytes beyond are untouched |
| `Addresses.Carry` | ovs/utils.go:86-91 | raising the last digit below 255 and clearing the rest adds one |
| `OvsdbCache.Cache.PopulateCache` | ovs/ovsdb.go:254-269 | whatever the enumeration order of tables and rows, rows in the update get their new contents and all others stay |
| `OvsdbCache.Cache.PopulateTable` | ovs/ovsdb.go:257-267 | the inner loop, with deletions |
| `OvsdbCache.CacheMirrors` | ovs/ovsdb.go:254-269 | applying the updates of any sequence of commits in order keeps every lookup equal to the database's |
| `OvsdbCache.InitialReply` | ovs/ovsdb.go:56-62 | the reply to the monitor request fills the empty cache with the whole database |
| `Ovsdb.CreateCommits` | ovs/ovs_bridge.go:111-197 | creating a bridge commits all its rows, with nothing collected, if and only if the name is free |
| `Ovsdb.DeleteBridgeCommits` | ovs/ovs_bridge.go:225-283 | deleting an existing bridge commits if and only if the cached uuid is its own, and removes it with its options, ports and interfaces and nothing else |
| `Ovsdb.DeleteNoBridge` | ovs/ovs_bridge.go:225-283 | deleting a bridge that is gone commits and changes nothing, however stale the uuid |
| `Ovsdb.AddPortCommits` | ovs/ovs_port.go:194-251 | a port joins the one bridge of that name if and only if its name is free |
| `Ovsdb.AddPortNowhere` | ovs/ovs_port.go:194-251 | without such a bridge the transaction commits and changes nothing |
| `Ovsdb.DeletePortCommits` | ovs/ovs_port.go:87-132 | a port is deleted, with its interface, if and only if the cached uuid is its own and the named bridge holds it; otherwise the transaction is refused |
| `Ovsdb.DeleteNoPort` | ovs/ovs_port.go:87-132 | deleting a port that is gone commits and changes nothing |
| `Ovsdb.CreateDeleteBridge` | ovs/ovs_bridge.go:111-197 | creating and deleting a bridge restores the database exactly |
| `Ovsdb.AddDeletePort` | ovs/ovs_port.go:87-132 | attaching and removing a port restores the database exactly |
| `Ovsdb.BridgeRemoved` | ovs/ovs_bridge.go:225-283 | of a deleted bridge no row, record or port is left, and every other bridge is as it was with all its ports and interfaces |
| `Ovsdb.PortAttached` | ovs/ovs_port.go:194-251 | an attached port is there with its interface and in its bridge, and every other port and bridge is as it was |
| `Ovsdb.PortRemoved` | ovs/ovs_port.go:87-132 | of a removed port nothing is left, and every other port and bridge is as it was |
| `OvsRuns.StepInv` | ovs/ovs_bridge.go:225-283 | every step, committed, refused or lost, keeps the database sound and the cache and queue true to it |
| `OvsRuns.PluginSafety` | ovs/ovs_bridge.go:111-283 | in every run, however stale the cache: the root's set equals the Bridge rows, port sets refer to existing ports, no port is in two bridges, Bridge and BridgeOpt rows correspond by name, and a port without the veth prefix exists exactly if its bridge does |
| `OvsRuns.OwnPortMeansBridge` | ovs/ovs_bridge.go:204-208 | the premise of `addBridge`: a port of a bridge's name exists if and only if the bridge does |
| `OvsRuns.CacheCatchesUp` | ovs/ovsdb.go:35-38 | once all notifications have arrived, the cached names are the database's |
| `OvsCacheLag.CacheLags` | ovs/ovsdb.go:254-269 | in every run, after k notifications the cached names are those the database had after k transactions, and the queue holds exactly the changes made since |
| `OvsRuns.CreateThenDelete` | ovs/ovs_bridge.go:225-283 | with the cache in sync and a free name, creating then deleting by cached uuid succeeds and restores the database |
| `OvsRuns.AttachThenRemove` | ovs/ovs_port.go:87-132 | the same for a veth port |
| `OvsPlugin.Server.Transact` | ovs/ovs_bridge.go:183-184 | operations in order, then commit; one result per operation, one more if the commit fails, none if the connection does |
| `OvsPlugin.CreateExec` | ovs/ovs_bridge.go:112-183 | the five operations, with rows named within the transaction, amount to the staged creation |
| `OvsPlugin.CreateOvsdbBridge` | ovs/ovs_bridge.go:111-197 | an error exactly if the transaction did not commit or was not answered |
| `OvsPlugin.AddBridge` | ovs/ovs_bridge.go:200-222 | without an answer to the first question, an error and no change; with a port of the name, success and no change; without one, the creation is sent, and success means if and only if the second question is answered and finds the port |
| `OvsPlugin.CreateBridge` | ovs/ovs_bridge.go:200-222 | on a sound database with a free name and all three answered: success, and the Bridge, Port, Interface and BridgeOpt rows are there with the datapath and network asked for, and all that was there before |
| `OvsPlugin.DatapathExact` | ovs/ovs_bridge.go:145-148 | the userspace datapath if and only if the service is pgw or sgw under Unicode case folding |
| `OvsPlugin.UuidForName` | ovs/ovs_bridge.go:300-309 | the loop finds a cached row of that name if there is one |
| `OvsPlugin.DeleteBridge` | ovs/ovs_bridge.go:225-298 | nothing happens if the cache does not know the bridge; a missing reply counts as success |
| `OvsPlugin.AddOvsVethPort` | ovs/ovs_port.go:194-251 | the database becomes that of the staged transaction; a missing reply counts as success |
| `OvsPlugin.DeletePort` | ovs/ovs_port.go:87-132 | an error exactly if the cache does not know the port, or the transaction did not commit or was not answered |
| `OvsNetworks.SameBridgeName` | ovs/driver.go:443-457 | without an explicit name, two networks of one name share a bridge name if and only if their ids agree in five characters |
| `OvsNetworks.DefaultNamesApart` | ovs/driver.go:443-457 | without explicit names, and whatever the networks are called, ids that differ in their first five characters get names chosen apart, so that `NetworkLookup` applies to them |
| `OvsLifecycle.NamesApart` | ovs/driver.go:443-457 | with explicit names too: they win over default names, and names are apart if explicit ones differ from each other and from the default ones |
| `OvsNetworks.BaseStep` | ovs/driver.go:85-192 | every step of creating and deleting networks, interleaved with each other and with ports, keeps every record paired with the name chosen for its network and with the network that made the bridge, whether names are shared or not |
| `OvsNetworks.NetStepInv` | ovs/driver.go:85-192 | with names chosen apart among the networks concerned, every step also keeps what each network's phase says about its record |
| `OvsNetworks.RecordIffMade` | ovs/ovsdb.go:184-213 | in every run, whatever the names chosen: a network is found if and only if it made the bridge of its name and that bridge was not deleted since, and then under that name |
| `OvsNetworks.NetworkLookup` | ovs/ovsdb.go:184-213 | in every run with names chosen apart among its networks and those recorded before: a live network is found under the name chosen for it, no lookup gives another's bridge, and after a deletion the record is gone if and only if the transaction was executed, which it was if it was answered |
| `OvsNetworks.SharedName` | ovs/ovs_bridge.go:204-221 | a run from an empty database with two networks of one bridge name: both are created, only the first has a record |
| `OvsLifecycle.CreateSucceeds` | ovs/driver.go:85-192 | after any run, a network that is not there and whose name is free is created when the server answers: live, found under its name, and the database has gained exactly its rows |
| `OvsLifecycle.DeleteSucceeds` | ovs/driver.go:85-192 | after any run, a network that is found and whose bridge the cache knows is deleted when the server answers: gone, no longer found, and the database has lost exactly its bridge with all that belongs to it |

## Left out

- Sockets, transports, authentication, unix file descriptors, HTTP handlers, iptables, shell commands, kernel calls and sleeps: input and output whose behaviour is not in the files.
- Reflection and `unsafe`: values are trees typed by type trees; `Store` is only the extraction of header fields; tagged, unexported and pointer fields of Go structures are not modelled.
- `Decode`'s error values, `Signature.Single`, and how far a failing encoder had written before it panicked.
- DBusMessageCodec.EncodeTo: says nothing about the bytes of a message whose body cannot be encoded, because the source ignores that error and sends what had been written.
- DBusRoundTrip.RoundTrip: excludes array elements that occupy no bytes, NaN map keys and carried signatures beyond 255 characters, which the source does not give back; `SizelessArray` and `SizelessArrayLoops` say what happens to the first, `Encode` to the second.
- The end of `DecodeMessage` on a stream that stops before the padding of the body is a failure here; in the source it is a panic that nothing recovers.
- D-Bus call completion, signals, name handling and the text form of variants.
- rpc2: `Go` with a channel shared among calls, whose capacity is the caller's concern; several read loops on one client; the gob codec; the values of replies and errors.
- JSON syntax: ids are opaque texts, and responses arriving at the codec are only their numbers in `Rpc2Client`.
- Netlink: the message header that `NetlinkRequest.Serialize` puts before its data; children that are raw data anywhere but first.
- OVSDB: columns the plugin does not use; other clients of the database; updates delivered out of order; lookups during `populateCache`; renamed bridges and the goroutine that recreates them (ovs/ovsdb.go:215-245); `addInternalPort` and `addVxlanPort`, which nothing calls and which differ from the veth port only in the interface row.
- Of `CreateNetwork`, `Join` and `Leave`, only the database steps; the rest of `initBridge` may fail at will.
