# Verified model of the OSC stack

A Dafny model of `remote-script/python_osc`, the Open Sound Control library that every
datagram of the remote script passes through, with proofs that its parts fit together:
what one side builds, frames and sends is what the other side's dispatcher gets.

`dafny verify dfyconfig.toml` checks the project.

## What is modelled

| module | source | contents |
|---|---|---|
| `Bytes`, `Wrappers`, `PyValues` | - | byte strings, Python slices with negative bounds, big-endian words; results; Python argument values |
| `Ntp`, `OscTypes` | `parsing/ntp.py`, `parsing/osc_types.py` | time tags over exact reals; every reader and writer of the atomic types |
| `OscMessage`, `OscMessageHeap` | `osc_message.py` | the grammar of type tags, the stack machine, and the loop over aliased Python lists |
| `OscMessageBuilder`, `InferredArguments` | `osc_message_builder.py` | typed and inferred arguments, the builder object, `build_msg` |
| `OscBundle`, `OscBundleBuilder` | `osc_bundle.py`, `osc_bundle_builder.py` | recursive bundles, their builder, trees of bundles |
| `OscPacket` | `osc_packet.py` | timed messages in stable order of time |
| `RegularExpression`, `AddressPattern`, `Dispatcher` | `dispatcher.py` | the expressions that are emitted for patterns, pattern translation, registrations, the timed loop against a clock |
| `Slip`, `SlipStream`, `OscTcpServer` | `slip.py`, `osc_tcp_server.py` | the SLIP codec, splitting at END END, both stream handlers over arbitrary chunks |
| `WireFormat` | `parsing/osc_types.py`, `osc_message.py`, `osc_message_builder.py` | what all of these mean in literal bytes: readers with their failures, writers, type tags, layouts |
| `EndToEnd` | all of these | built messages reach their handlers over both framings |

Readers and writers follow the source as functions, with Python's slices; where the source
runs a loop or changes an object there is a method with that loop or a class with that
state, proved equal to the function. A reader gives `Malformed`, and a writer `None`, where
the source raises.

## Findings

Where the code does less than its promise, the model keeps the code and states exactly when
the promise holds.

- A built message comes back if and only if its address and strings are free of NUL bytes
  (`OscMessageBuilder.BuildParse`); nothing in the builder checks this.
- A built bundle comes back if and only if the first bytes of every element identify it
  (`OscBundleBuilder.BuildGivesBack`); a message whose address has no leading slash is dropped,
  and the other elements come back in order (`OscBundleBuilder.BuildDrops`).
- Bundle parsing need not end. An element size above -4 advances the index, -4 leaves it where
  it is, and a smaller one moves it back (`OscBundle.StepAdvances`). The loop goes on for ever
  exactly if it comes to an index a second time, and otherwise stops within twice as many
  iterations as the datagram has bytes (`OscBundle.ForeverIffRepeats`,
  `OscBundle.StopsWithinLimit`). Two datagrams of 20 bytes that are parsed for ever are given,
  for sizes of -4 and of -8 (`OscBundle.MinusFourBundle`, `OscBundle.MinusEightBundle`); when
  all sizes are above -4, also in nested bundles, parsing ends (`OscBundle.ForwardReturns`).
- The OSC 1.0 handler passes on exactly the sent datagrams if and only if none is empty; an
  empty one ends the connection (`OscTcpServer.PrefixedDatagrams`).
- A date comes back within one tick below itself if and only if it is IMMEDIATELY, or lies
  in or after 1900 and does not get time tag 1 (`OscTypes.DateWithinTick`); every time tag
  but that of the Unix epoch survives decoding and encoding (`OscTypes.TagOfDate`).
- An address pattern whose expression `re.compile` refuses gets no handler, not even the
  default handler. What `re.compile` makes of the emitted text can be read off the pattern
  (`AddressPattern.CompileIsRead`): it refuses a range that runs backwards, and an empty set
  that nothing closes later, as in `/a[` (`AddressPattern.LeftOpenRefused`,
  `Dispatcher.LeftOpenSilences`). An empty set that is closed later swallows what lies between.
- The documentation of `set_default_handler` (`dispatcher.py:381`) promises the default
  handler whenever no other handler is mapped to an address. A message is silenced all the
  same exactly if its pattern is refused, or some registered address matches and all matching
  ones have an empty list (`Dispatcher.DefaultHandlerRule`). `unmap` leaves such a list behind
  (`Dispatcher.UnmapSilences`).
- A registration that ends in slash and star never gets its own prefix, when the prefix has no
  character with a meaning in Python's expressions other than the dot: none of
  `\ ^ $ | ( ) + * ? [ {` (`Dispatcher.SubtreeRegistration`; the source does not escape them, so
  that `/x|/y/*`, for instance, does match `/x|/y`). A dot of the prefix matches any character.
  The bridge registers only `/loopercontrol/*` (`remote-script/BridgeServer.py:36`), while the
  plugin sends to the `/loopercontrol` address itself (`src/Bridge/BridgeClient.cpp:113`).

## Model

| member | source | states |
|---|---|---|
| Slip.EncodeIsOnePass | remote-script/python_osc/slip.py:50-63 | the two replacement passes of the encoder do, on every byte string, the work of one pass over the bytes |
| WireFormat.SlipBytes | remote-script/python_osc/slip.py:50-63 | the literal bytes that are sent for a message, byte by byte |
| Slip.TwoPassesUnescape | remote-script/python_osc/slip.py:83 | on escaped text the two replacement passes of the decoder, in the order of the source, agree with the one-pass escape automaton |
| Slip.DecodeIsOnePass | remote-script/python_osc/slip.py:66-83 | `decode` is the automaton on the stripped packet and raises exactly where the automaton fails |
| Slip.CleanIsUnescapable | remote-script/python_osc/slip.py:100-105 | the three tests of `is_valid` together accept what the automaton accepts |
| Slip.ValidIffEscaped | remote-script/python_osc/slip.py:86-105 | a packet is valid iff its END-stripped body is the escaped form of some message |
| Slip.DecodeEncode | remote-script/python_osc/slip.py:50-83 | decoding an encoded message gives it back, for every message |
| Slip.EncodeDecode | remote-script/python_osc/slip.py:50-83 | encoding what a valid packet decodes to gives its body in one pair of END bytes |
| Slip.DecodeInjective | remote-script/python_osc/slip.py:66-83 | two valid packets decode to the same message iff their bodies are equal |
| SlipStream.SplitGivesRuns | remote-script/python_osc/osc_tcp_server.py:138 | splitting at END END and stripping finds the END-free runs, apart from empty packets, in any text without an END standing alone |
| SlipStream.FramesCarry | remote-script/python_osc/osc_tcp_server.py:124-139 | a stream of frames is well framed and carries exactly the non-empty messages, in order |
| SlipStream.PieceOfStream | remote-script/python_osc/osc_tcp_server.py:126-139 | a piece that ends on any END decodes without error to the messages it carries, and the rest of the stream carries the others |
| SlipStream.SplitDecodeFrames | remote-script/python_osc/osc_tcp_server.py:138 | a buffer of whole frames of non-empty messages splits and decodes to exactly those messages |
| SlipStream.EndEndAtBoundaries | remote-script/python_osc/slip.py:63 | END END occurs in a stream of non-empty messages exactly where two frames meet |
| OscTcpServer.TCPHandler11.RecvAll | remote-script/python_osc/osc_tcp_server.py:126-139 | reads some part of the stream that ends on an END or at the end of the stream, and decodes its pieces |
| OscTcpServer.TCPHandler11.Handle | remote-script/python_osc/osc_tcp_server.py:108-124 | from a well-framed stream dispatches the carried messages in order, apart from empty packets, for every way of cutting it into chunks |
| OscTcpServer.TCPHandler10.RecvAll | remote-script/python_osc/osc_tcp_server.py:85-93 | exactly the next `count` bytes, or nothing at the end of the stream, for every chunking |
| OscTcpServer.TCPHandler10.Handle | remote-script/python_osc/osc_tcp_server.py:63-83 | dispatches the datagrams of the stream, for every chunking |
| OscTcpServer.PrefixedDatagrams | remote-script/python_osc/osc_tcp_server.py:63-83 | the datagrams of a length-prefixed stream are the sent ones up to the first empty one, and all of them iff none is empty |
| WireFormat.PrefixBytes | remote-script/python_osc/osc_tcp_server.py:70-71 | the literal bytes of a length prefix |
| OscTcpServer.CutStream | remote-script/python_osc/osc_tcp_server.py:63-93 | a stream that ends anywhere delivers exactly the datagrams that arrived whole |
| OscTypes.IntAt | remote-script/python_osc/parsing/osc_types.py:95-128 | exactly the 32-bit integers can be written, and each is read back at any offset with the index after it |
| OscTypes.Int64At | remote-script/python_osc/parsing/osc_types.py:131-164 | the same for 64-bit integers |
| OscTypes.PackOfSigned | remote-script/python_osc/parsing/osc_types.py:95-164 | every word is the word of the integer read from it |
| OscTypes.RgbaAt | remote-script/python_osc/parsing/osc_types.py:381-414 | an unsigned 32-bit colour is read back at any offset |
| OscTypes.FloatAt | remote-script/python_osc/parsing/osc_types.py:223-259 | a complete float word is read back at any offset, past the padding of short datagrams |
| OscTypes.MidiAt | remote-script/python_osc/parsing/osc_types.py:417-457 | a MIDI message is read back with each of its four integers modulo 256 |
| OscTypes.MidiOfWord | remote-script/python_osc/parsing/osc_types.py:417-457 | every 4-byte word is the word of the MIDI message read from it |
| OscTypes.ScanString | remote-script/python_osc/parsing/osc_types.py:70-92 | the scan loop finds the first NUL byte, and fails at the end of the datagram or of the padding |
| OscTypes.StringAt | remote-script/python_osc/parsing/osc_types.py:37-92 | a written string is read back at any offset, with the index after its padding, iff it has no NUL byte |
| OscTypes.PadBlob | remote-script/python_osc/parsing/osc_types.py:327-339 | the padding loop adds the zero bytes to the next multiple of 4 and refuses the empty blob |
| OscTypes.BlobAt | remote-script/python_osc/parsing/osc_types.py:300-339 | a written blob is read back at any offset with the index after its padding |
| OscTypes.DateAt | remote-script/python_osc/parsing/osc_types.py:342-378 | the time tag of a date is read at any offset as the date's round trip |
| OscTypes.DateWithinTick | remote-script/python_osc/parsing/osc_types.py:342-378 | the round trip of a date lies less than one tick below it, iff it is IMMEDIATELY or from 1900 on and without time tag 1 |
| OscTypes.DateStable | remote-script/python_osc/parsing/osc_types.py:342-378 | a date that was read can be written, and is read again unchanged |
| OscTypes.TagOfDate | remote-script/python_osc/parsing/osc_types.py:342-378 | a time tag survives decoding and encoding iff it is not that of the Unix epoch |
| OscTypes.DateMonotone | remote-script/python_osc/parsing/osc_types.py:371-378 | later dates do not get earlier time tags |
| WireFormat.FourBytesRead | remote-script/python_osc/parsing/osc_types.py:107-128 | four literal bytes as a signed integer, a colour, a MIDI message and a float |
| WireFormat.EightBytesRead | remote-script/python_osc/parsing/osc_types.py:143-164 | eight bytes as a signed integer, a double, the seconds and fraction of a time tag, and a date counted from 1900 |
| WireFormat.ShortWords | remote-script/python_osc/parsing/osc_types.py:119-128 | a word that the datagram is too short for cannot be read, but a float is completed with zero bytes |
| WireFormat.StringRead | remote-script/python_osc/parsing/osc_types.py:52-92 | a string goes up to its first zero byte, and is refused if the datagram ends within its padding |
| WireFormat.StringHasEnd | remote-script/python_osc/parsing/osc_types.py:70-92 | a string without a zero byte is refused |
| WireFormat.StringWritten | remote-script/python_osc/parsing/osc_types.py:37-51 | a string is written with one to four zero bytes after it |
| WireFormat.BlobRead | remote-script/python_osc/parsing/osc_types.py:300-324 | a blob has the size in front of it, and is refused if it exceeds the datagram |
| WireFormat.NegativeBlobRead | remote-script/python_osc/parsing/osc_types.py:300-324 | a negative blob size moves the index back by its size, rounded to a multiple of 4 |
| WireFormat.BlobWritten | remote-script/python_osc/parsing/osc_types.py:327-339 | a blob is written with its size and up to three zero bytes; an empty one cannot be written |
| WireFormat.IntWritten | remote-script/python_osc/parsing/osc_types.py:95-104 | the four bytes of an integer |
| WireFormat.Int64Written | remote-script/python_osc/parsing/osc_types.py:131-140 | the two words of a 64-bit integer |
| WireFormat.MidiWritten | remote-script/python_osc/parsing/osc_types.py:417-432 | the four bytes of a MIDI message |
| WireFormat.DateWritten | remote-script/python_osc/parsing/osc_types.py:371-378 | the eight bytes of IMMEDIATELY, and the tick count from 1900 that other dates are written as |
| Ntp.TimeOfTicks | remote-script/python_osc/parsing/ntp.py:44-64 | truncation rounds a time down to its tick iff the time is not before 1900 |
| Ntp.TicksOfTime | remote-script/python_osc/parsing/ntp.py:44-64 | a tick count is the tick count of its time |
| Ntp.TimestampParts | remote-script/python_osc/parsing/ntp.py:37-41 | seconds and fraction are 32-bit numbers that rebuild the time tag |
| OscMessage.RunIsGrammar | remote-script/python_osc/osc_message.py:44-91 | the stack machine gives the values, or the error, that the recursive grammar of type tags gives |
| OscMessage.AcceptsBalanced | remote-script/python_osc/osc_message.py:73-90 | unless a payload cannot be read, exactly the type tags with balanced brackets are accepted |
| WireFormat.TagsRead | remote-script/python_osc/osc_message.py:47-72 | what the bytes of i, h, r, m, s, b, T, F and N in the type tags read |
| WireFormat.FloatTagsRead | remote-script/python_osc/osc_message.py:53-56 | the same for f and d |
| WireFormat.TimetagRead | remote-script/python_osc/osc_message.py:65-66 | the byte of t reads a pair of the seconds and the fraction in the next eight bytes |
| WireFormat.OtherTagsSkipped | remote-script/python_osc/osc_message.py:83-86 | every other byte of the type tags is passed over |
| WireFormat.SequenceBrackets | remote-script/python_osc/osc_message.py:73-82 | the bytes of the two brackets start and end a list |
| WireFormat.StringTag | remote-script/python_osc/osc_message.py:57-58 | where the byte of s stands in the type tags, the parameter is the string at the index |
| WireFormat.MessageForms | remote-script/python_osc/osc_message.py:28-44 | an address alone is a message without parameters; type tags must start with a comma; which error each failure is |
| WireFormat.PluginMessage | src/Bridge/BridgeClient.cpp:110-117 | the datagram of the plugin, byte by byte, parses to its address and the one JSON string |
| OscMessage.RunIndexes | remote-script/python_osc/osc_message.py:44-88 | a run that succeeds has one read index for every type tag and one after the last |
| OscMessage.IndexesAligned | remote-script/python_osc/osc_message.py:44-88 | whatever a datagram holds, the read index at every iteration is a multiple of 4 |
| OscMessage.IndexMovesBack | remote-script/python_osc/parsing/osc_types.py:318-324 | reading a parameter moves the index back iff it is a blob whose size is read as -8 or less |
| OscMessageHeap.TreeFrame | remote-script/python_osc/osc_message.py:73-76 | the value of a closed list does not change while open lists are filled |
| OscMessageHeap.PushLeaf | remote-script/python_osc/osc_message.py:87-88 | appending to the last list of the stack adds the value to the innermost open list of the tree and to no other; the lists stay one tree whose rightmost open path is the stack |
| OscMessageHeap.OpenListTree | remote-script/python_osc/osc_message.py:73-76 | appending a new list keeps the lists one tree: exactly one entry refers to each list but the outermost |
| OscMessageHeap.OpenList | remote-script/python_osc/osc_message.py:73-76 | appending a new list to its parent and to the stack opens one empty level, and the lists stay one tree |
| OscMessageHeap.CloseList | remote-script/python_osc/osc_message.py:77-82 | popping the stack turns the innermost level into one value of the level below |
| OscMessageHeap.StepHeap | remote-script/python_osc/osc_message.py:47-88 | one iteration over heap lists is one step of the stack machine on their nested values |
| OscMessageHeap.ParseDatagram | remote-script/python_osc/osc_message.py:28-93 | the parser over aliased heap lists gives the address and the nested values of the grammar, as one tree of lists, or its error |
| OscMessageHeap.NoAliases | remote-script/python_osc/osc_message.py:73-93 | no two entries of the parsed parameters are the same Python list, and none is the parameter list itself |
| OscMessageBuilder.OscMessageBuilder.Add | remote-script/python_osc/osc_message_builder.py:85-109 | appends exactly the entries of the argument, also those before an error |
| OscMessageBuilder.AddArgFlattens | remote-script/python_osc/osc_message_builder.py:75-144 | `add_arg` returns normally iff the argument has a typed tree, and appends its flattening with supported tags |
| OscMessageBuilder.OscMessageBuilder.Build | remote-script/python_osc/osc_message_builder.py:146-199 | writes address, type tags and payloads, parses them, and fails where a writer does |
| OscMessageBuilder.LeafAt | remote-script/python_osc/osc_message_builder.py:169-197 | every written argument is read back at any offset with the index after it; a string with a NUL byte is read as something else |
| OscMessageBuilder.SequenceOfWires | remote-script/python_osc/osc_message_builder.py:166-195 | nested payloads are read back by the grammar of their type tags whatever surrounds them, iff their strings have no NUL byte |
| OscMessageBuilder.BuildParse | remote-script/python_osc/osc_message_builder.py:146-199 | a built message has a length divisible by 4, and parsing it ends at its last byte and gives the address and nested values, iff address and strings have no NUL byte |
| OscMessageBuilder.BuiltIndexes | remote-script/python_osc/osc_message.py:44-91 | in a built message the read index goes from the end of the type tags to the last byte, in multiples of 4 and never back |
| InferredArguments.PickedTypePacks | remote-script/python_osc/osc_message_builder.py:129-133 | the integer type chosen by `bit_length() > 31` packs exactly the 64-bit integers |
| WireFormat.InferredEntry | remote-script/python_osc/osc_message_builder.py:111-144 | the literal type tag that a value without a type gets, or its refusal |
| WireFormat.ListEntries | remote-script/python_osc/osc_message_builder.py:103-107 | a list without a type becomes its items between brackets, or nothing at all |
| WireFormat.ExplicitEntry | remote-script/python_osc/osc_message_builder.py:97-109 | exactly the supported tags are accepted as a type |
| WireFormat.ExplicitEntries | remote-script/python_osc/osc_message_builder.py:75-109 | a list of types must be valid throughout and is paired with the items up to the shorter end; an empty one means no type |
| WireFormat.NoItems | remote-script/python_osc/osc_message_builder.py:103-107 | a list of types for a value without items leaves its opening bracket behind |
| WireFormat.PayloadWritten | remote-script/python_osc/osc_message_builder.py:169-197 | what is written for strings, blobs, floats and the tags without a payload, and that other values cannot be written so |
| WireFormat.IntegerWritten | remote-script/python_osc/osc_message_builder.py:171-190 | the same for the integer tags, which take booleans as 1 and 0 |
| WireFormat.MidiEntryWritten | remote-script/python_osc/osc_message_builder.py:183-184 | the payload of a MIDI tuple |
| WireFormat.BuiltLayout | remote-script/python_osc/osc_message_builder.py:156-197 | a datagram is the padded address, a comma with the type tags, padded, and the payloads; an empty address is refused |
| WireFormat.OneArgument | remote-script/python_osc/osc_message_builder.py:158-197 | the literal bytes of the type tags of a message with one argument |
| WireFormat.BuiltString | remote-script/python_osc/osc_message_builder.py:158-197 | the datagram that is built for one string |
| InferredArguments.ItemsTyped | remote-script/python_osc/osc_message_builder.py:103-107 | items of an untyped list get the types they would get on their own |
| InferredArguments.ArgumentsFaithful | remote-script/python_osc/osc_message_builder.py:113-199 | exactly which untyped values, nested to any depth, can be built, and what they are read back as |
| InferredArguments.BuildMsg | remote-script/python_osc/osc_message_builder.py:202-215 | the parameters of the message that is built for each kind of value: the items of a list or tuple at top level, a string or bytes as one parameter, none for the empty string, and any other scalar as itself, or its refusal |
| InferredArguments.BuildInferred | remote-script/python_osc/osc_message_builder.py:85-215 | exactly the buildable values are written, and they come back with MIDI bytes modulo 256 iff address and strings have no NUL byte |
| OscBundle.Parse | remote-script/python_osc/osc_bundle.py:21-38 | the constructor reads the date and then the elements |
| OscBundle.ParseLoop | remote-script/python_osc/osc_bundle.py:40-69 | the element loop, for sizes of any sign, and whether it ends |
| OscBundle.ContentIs | remote-script/python_osc/osc_bundle.py:59-65 | an element that starts with neither `#bundle` nor a slash is dropped; one that does must parse, or the bundle raises |
| OscBundle.BundleIs | remote-script/python_osc/osc_bundle.py:29-38 | the elements start at byte 16, after the time tag, without which the bundle raises |
| OscBundle.IterationIs | remote-script/python_osc/osc_bundle.py:50-65 | one iteration in terms of the bytes: the end, a rest too short for a size, and an element cut off at the end of the datagram |
| OscBundle.IterationAt | remote-script/python_osc/osc_bundle.py:50-65 | one iteration for sizes and indexes of any sign, with Python's slice as the element |
| OscBundle.BodyParsed | remote-script/python_osc/osc_bundle.py:50-69 | for arbitrary elements, each is kept, dropped, or makes the bundle raise, one after the other |
| OscBundle.EndlessIffForever | remote-script/python_osc/osc_bundle.py:50-65 | the result is Endless iff the loop goes on for ever, or reaches a nested bundle whose parsing does |
| OscBundle.ForeverIffRepeats | remote-script/python_osc/osc_bundle.py:50-56 | the loop goes on for ever iff an index is reached twice, which shows within twice the length of the datagram |
| OscBundle.StopsWithinLimit | remote-script/python_osc/osc_bundle.py:50-56 | a loop that does not go on for ever stops within twice as many iterations as the datagram has bytes |
| OscBundle.StuckAtMinusFour | remote-script/python_osc/osc_bundle.py:50-65 | an index where the element size is -4 is never left, and nothing is added there |
| OscBundle.MinusFourBundle | remote-script/python_osc/osc_bundle.py:50-65 | a bundle of 20 bytes that is parsed for ever, with any time tag |
| OscBundle.MinusEightBundle | remote-script/python_osc/osc_bundle.py:50-65 | the same for an element size of -8, which leads back into the time tag |
| OscBundle.StepAdvances | remote-script/python_osc/osc_bundle.py:50-56 | an iteration advances the index iff the size is above -4, leaves it iff it is -4, and moves it back iff it is smaller |
| OscBundle.NegativeSizeSkips | remote-script/python_osc/osc_bundle.py:52-65 | sizes from -4 to -1 take an empty element, which is dropped |
| OscBundle.ForwardReturns | remote-script/python_osc/osc_bundle.py:40-69 | parsing ends on every datagram whose sizes are above -4 at every level |
| OscBundle.SpansInOrder | remote-script/python_osc/osc_bundle.py:50-56 | without negative sizes the element slices are disjoint, in order and inside the datagram |
| OscBundleBuilder.OscBundleBuilder.Build | remote-script/python_osc/osc_bundle_builder.py:40-62 | writes date and length-prefixed elements and parses the result |
| OscBundleBuilder.ContentsAt | remote-script/python_osc/osc_bundle.py:50-65 | the elements of a written body come back, in order, iff all are recognised by their first bytes |
| OscBundleBuilder.BuildGivesBack | remote-script/python_osc/osc_bundle_builder.py:40-62 | a built bundle holds the added elements in order and the date of its time tag, iff all elements are recognised |
| OscBundleBuilder.BuildDrops | remote-script/python_osc/osc_bundle.py:59-65 | of a bundle built of parsed elements of which some cannot be identified, the others come back in order |
| WireFormat.BundleWritten | remote-script/python_osc/osc_bundle_builder.py:46-60 | the literal bytes of a bundle around its time tag and its elements |
| OscBundleBuilder.WritableElements | remote-script/python_osc/osc_bundle_builder.py:49-55 | elements can be written iff their lengths fit an int32 |
| OscBundleBuilder.BundleAligned | remote-script/python_osc/osc_bundle_builder.py:46-60 | a bundle of elements of aligned length has an aligned length |
| OscBundleBuilder.ContentsRewritten | remote-script/python_osc/osc_bundle_builder.py:51-57 | writing the elements parsed from a body of whole, recognised elements gives the body back |
| OscBundleBuilder.BundleRewritten | remote-script/python_osc/osc_bundle_builder.py:40-62 | a parsed bundle of whole, recognised elements is written as the same datagram, iff its time tag is not that of the Unix epoch |
| OscBundleBuilder.TreesBuildBack | remote-script/python_osc/osc_bundle_builder.py:40-62 | trees of bundles of any shape, built bottom up, parse back to the same trees with the dates of their time tags |
| OscBundleBuilder.TreesWritable | remote-script/python_osc/osc_bundle_builder.py:40-62 | trees can be built iff every date has a time tag and the length of every element, which can be told from the tree, fits an int32 |
| OscBundleBuilder.TreeRoundTrip | remote-script/python_osc/osc_bundle.py:21-69 | the built datagram of a tree parses to the bundle that has that tree |
| OscPacket.TimedMsgOfBundle | remote-script/python_osc/osc_packet.py:27-40 | the recursive loop collects the timed messages depth first |
| OscPacket.FlattenedAt | remote-script/python_osc/osc_packet.py:27-40 | every message of a bundle tree is in the list at its depth-first position, due at the time of its innermost bundle if that is not IMMEDIATELY and not past, and otherwise at `now` |
| OscPacket.DepthFirst | remote-script/python_osc/osc_packet.py:27-40 | a message that comes first depth first has the earlier position |
| OscPacket.PathOf | remote-script/python_osc/osc_packet.py:27-40 | every position of the list belongs to a message of the tree |
| OscPacket.PathUnique | remote-script/python_osc/osc_packet.py:27-40 | different messages of the tree have different positions |
| OscPacket.SortByTimeIsStable | remote-script/python_osc/osc_packet.py:66-69 | the sort keeps every message, orders by time, and keeps the order among equal times |
| OscPacket.StableSortUnique | remote-script/python_osc/osc_packet.py:66-69 | a list has only one such sort, so the choice of algorithm does not matter |
| OscPacket.PacketMessages | remote-script/python_osc/osc_packet.py:54-79 | the messages of a bundle packet are all those of its tree, stably sorted, each due when its innermost bundle says; a message packet is due at `now` |
| OscPacket.PacketFails | remote-script/python_osc/osc_packet.py:54-79 | which packets cannot be parsed |
| AddressPattern.CompilePattern | remote-script/python_osc/dispatcher.py:246-290 | the translation loop emits the text of the expression, which is then compiled or refused |
| AddressPattern.CompileIsRead | remote-script/python_osc/dispatcher.py:246-290 | the compiled expression of any pattern, or its refusal, can be read off the pattern, also where an empty set swallows the text after it |
| AddressPattern.CompileFilled | remote-script/python_osc/dispatcher.py:255-267 | a pattern without an empty set is refused iff a range runs backwards, and otherwise compiles to its items |
| AddressPattern.LeftOpenRefused | remote-script/python_osc/dispatcher.py:255-290 | an empty set that no later star, question mark or set closes makes the pattern refused |
| AddressPattern.EscapedCharacters | remote-script/python_osc/dispatcher.py:261-281 | which literal characters are escaped in sets and elsewhere |
| AddressPattern.StarPattern | remote-script/python_osc/dispatcher.py:250-253 | a star accepts any text without a slash, a question mark any character but a slash |
| AddressPattern.SetPattern | remote-script/python_osc/dispatcher.py:254-265 | a set accepts its characters, and with an exclamation mark every other character |
| AddressPattern.RangePattern | remote-script/python_osc/dispatcher.py:254-265 | a range in a set, or its refusal |
| AddressPattern.GroupPattern | remote-script/python_osc/dispatcher.py:266-279 | braces accept their alternatives |
| AddressPattern.Unclosed | remote-script/python_osc/dispatcher.py:254-279 | a set or braces that are not closed reach to the end of the pattern |
| AddressPattern.SwallowedSet | remote-script/python_osc/dispatcher.py:254-265 | the pattern `[]?` is one set, with the characters that are emitted for the question mark as members |
| AddressPattern.CharPattern | remote-script/python_osc/dispatcher.py:280-283 | every other character accepts itself |
| AddressPattern.PartIsAccepted | remote-script/python_osc/dispatcher.py:246-284 | on one address part the expression of a well-formed pattern accepts what the pattern means |
| AddressPattern.AcceptsSlash | remote-script/python_osc/dispatcher.py:250-253 | a slash in the expression can only match the first slash that is left of the address |
| AddressPattern.PatternMatchesByParts | remote-script/python_osc/dispatcher.py:246-300 | the one expression of a well-formed pattern accepts an address iff both have the same number of parts and each part matches on its own |
| AddressPattern.CompiledMatchesByParts | remote-script/python_osc/dispatcher.py:284-294 | the same for the compiled expression, whose dollar sign also allows one final newline |
| Dispatcher.Dispatcher.Map | remote-script/python_osc/dispatcher.py:146-185 | appends a handler to the list of its address |
| Dispatcher.Dispatcher.Unmap | remote-script/python_osc/dispatcher.py:218-230 | removes the first equal handler if there is one, and keeps or creates the key |
| Dispatcher.SetList | remote-script/python_osc/dispatcher.py:180-185 | setting one list leaves the others and the order of the keys, and a new key comes last |
| Dispatcher.RemoveFirstIsFirst | remote-script/python_osc/dispatcher.py:218-223 | the first of equal handlers is removed |
| Dispatcher.Dispatcher.HandlersForAddress | remote-script/python_osc/dispatcher.py:286-303 | the handlers of all matching keys in map order, or the default handler, or none if the pattern is refused |
| Dispatcher.HandlersInMapOrder | remote-script/python_osc/dispatcher.py:292-303 | the list of a matching key stands in the result directly after those of the matching keys before it |
| Dispatcher.HandlerChosen | remote-script/python_osc/dispatcher.py:286-303 | a handler is chosen iff the pattern compiles, and a matching key has it, or no key matches and it is the default handler |
| Dispatcher.MatchedCount | remote-script/python_osc/dispatcher.py:293-299 | a handler is chosen once for each of its registrations under matching keys |
| Dispatcher.DefaultHandlerRule | remote-script/python_osc/dispatcher.py:286-303 | with a default handler a message is still silenced iff its pattern is refused, or some key matches and all matching keys have empty lists |
| Dispatcher.LeftOpenSilences | remote-script/python_osc/dispatcher.py:286-290 | an address with a set that is left open, as in `/a[`, gets no handler, whatever is registered |
| Dispatcher.UnmapSilences | remote-script/python_osc/dispatcher.py:218-303 | mapping and unmapping one handler silences its address for the default handler |
| Dispatcher.PlainAccepts | remote-script/python_osc/dispatcher.py:246-294 | as a pattern, an address without pattern characters accepts itself, and itself with a final newline, and nothing else |
| Dispatcher.KeyMatchesBy | remote-script/python_osc/dispatcher.py:294-297 | what a registered address is matched by, by its literal characters |
| Dispatcher.StarSplits | remote-script/python_osc/dispatcher.py:296 | a star of a registered address takes any text without a newline |
| Dispatcher.StarlessMatches | remote-script/python_osc/dispatcher.py:296 | what the part after the last star of a registered address matches |
| Dispatcher.SubtreeRegistration | remote-script/python_osc/dispatcher.py:294-297 | a registration of an ordinary prefix with slash and star gets exactly the addresses without pattern characters strictly below the prefix, a dot standing for any character, and never the prefix itself |
| Dispatcher.Dispatcher.CallHandlers | remote-script/python_osc/dispatcher.py:321-332 | one message: its handlers are invoked once each in order, under strict timing after sleeping exactly up to the time the message is due |
| Dispatcher.Dispatcher.CallHandlersForPacket | remote-script/python_osc/dispatcher.py:305-335 | for every behaviour of the clock: the planned calls are made, each once, at times that never go back and, under strict timing, not before they are due; a packet that cannot be parsed calls nothing, and parsing goes on for ever exactly for an Endless bundle |
| Dispatcher.PacketCallsOrdered | remote-script/python_osc/dispatcher.py:319-332 | the calls for a packet are ordered by the times their messages are due |
| Dispatcher.PlanBlock | remote-script/python_osc/dispatcher.py:319-332 | the calls for a message follow on those for the messages before it, its handlers in order, when it is due |
| Dispatcher.ResultAt | remote-script/python_osc/dispatcher.py:329-332 | the results are the replies of the calls that have one, in order |
| EndToEnd.ServeSlip | remote-script/python_osc/osc_tcp_server.py:108-139 | messages built from values and sent as SLIP frames over a connection of any chunks: the dispatcher invokes exactly the handlers of each, with its address and values, in order |
| EndToEnd.BundleDelivers | remote-script/python_osc/osc_packet.py:54-79 | a built tree of bundles is received as its messages in stable order of the times their innermost bundles say |
| EndToEnd.ServeTree | remote-script/python_osc/dispatcher.py:305-335 | every tree that can be built is dispatched in that order, each message due when its innermost bundle says, and under strict timing not invoked before that time |
| EndToEnd.ServePrefixed | remote-script/python_osc/osc_tcp_server.py:63-93 | the same for the length-prefixed stream |

## Left out

- UTF-8: strings are byte strings, so decoding errors are not modelled and a character outside ASCII counts as its bytes.
- Floats: a float is an opaque 4-byte word for tag f and an opaque 8-byte word for tag d; rounding a Python float to 32 bits, and integers written with an explicit float tag, are not modelled, so `InferredArguments.Buildable` refuses a `Double` without a type.
- Dates are exact reals: the rounding of `timetag * 2**-32` in double precision is not modelled.
- Which Python exception a failing builder raises: every failure of a writer is one outcome, and `add_arg` only says whether it returned.
- InferredArguments.ArgumentsFaithful: refuses a `Double` without a type, because rounding a float to 32 bits is not modelled.
- InferredArguments.BuildInferred: the same for the arguments of a whole message.
- OscBundle.ParseLoop: counts its iterations to tell Endless; the source just goes on, and where a loop that never ends keeps elements it runs out of memory at some point.
- OscMessageBuilder: type codes of more than one character, which `add_arg` refuses, have no counterpart in the model.
- AddressPattern.PatternMatchesByParts: is about well-formed patterns; for negated or empty sets and unclosed brackets and braces `AddressPattern.CompileIsRead` says what the expression is, but there is no matching by parts to compare it with.
- Dispatcher.KeyMatches: a registered address with a star and with other characters that have a meaning in Python's expressions, apart from the dot, is matched by a parameter, `Engine`, that stands for `re.match`; that `re.match` can raise on such an address is not modelled.
- Handlers: a callback is a number and its reply a parameter; what a handler does, including changing the registrations while it runs, is outside the model, and so are the replies sent back over the connection.
- Sockets, threads, timeouts, address families, the asyncio servers, the UDP server and the clients; `Connection` gives any non-empty chunk of a fixed stream, and the stream handlers record what they dispatch.
- Recursion limits: Python stops at a depth of nesting that the model does not bound.
- The JUCE plugin, the Live control surface, looper discovery, the JSON messages and the install scripts.
