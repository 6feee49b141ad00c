# Cremona: the message codec, the driver's store and the assembly of toots

Cremona lets a process toot by writing to a character device. A kernel driver announces the toot to a
daemon over netlink, sends it the written text piece by piece as MessagePack messages, and the daemon
puts the pieces together and posts them. This project models three parts of it and proves what they
promise.

**The MessagePack engine** (`mpack.c`, as the driver builds it, without an allocator, floats or
extensions).

- `Bytes`, `Tags` and `Decoder` are the format: how a tag reads and how it is written, and a plain
  recursive decoder and encoder that undo each other. `Memory` has the memory functions.
- `Walks` says, without a stack, how and why a parse ends. `Parser` is one step of the tree parser on values,
  with the invariants of a whole parse; `Tree` is the parser itself, with its level stack and node pool updated
  in place, proved to be the recursive decoder. Pool size and stack capacity are parameters. `Truncation` is
  about what stands behind a payload.
- `Tracking` and `Writer` are the buffered writer and its element tracking; `Reader` is the buffered reader.
  Both are proved to be flat byte streams for every flush and fill function allowed. `Agreement` shows that
  reader and tree parser decode alike.
- `Utf8` is the validator against section 4 of RFC 3629.
- `Format` gives the format by its numbers: lead bytes, sizes, digits to base 256 and two's complement. The
  definitions of the modules above are held against it.
- `Serialize` and `Deserialize` are the driver's messages on top of all that.

**The driver's store and handlers.** `Tables` says what each store operation makes of the three tables,
`Store` does it in place, `Runs` makes the handlers into steps and proves what every run keeps, and
`Handlers` are the handlers themselves, which serialize, send and update, each proved to make the step
`Runs` gives it. A handler that waits ends one step there and resumes in another, so anything may happen
in between. `Laws` tells entry by entry what a step and a run do and say, without the functions a step is made of.
`Writing` is the device's write, which cuts a text into chunks.

**Assembly.** `Numbering` follows the indices the driver hands out for the texts of a toot, `Assembly` is
the daemon's collection and sorting, and `EndToEnd` joins the two.

## Findings

- Lead bytes 0xca and 0xcb have no case in this build and run into `mpack_assert(0)`, which it takes for
  unreachable, so C says nothing of what happens then; a received array with a float gets there
  (`Walks.FloatIsUndefined`). Here that is an outcome of its own. `Walks.MeetsUndefined` says for every input
  whether the parser comes to such a byte; without the bytes it never does (`Walks.PlainDataHasAnswer`). The
  reader can come to one where the parser has given up before (`Walks.ReaderMeetsMore`). The decoder comes to one
  iff it stands where a tag is to be read (`Format.DecodesIffWhole`).
- The order of a toot's texts is kept iff the index does not pass zero between the first text that is sent and
  the last. The exact condition is `Numbering.InOrder`, which for texts less than 2^32 writes apart is
  `Numbering.NoWrap` from the one to the other (`Numbering.InOrderIffNoWrap`). The count a toot starts from is
  never initialised (`driver/src/module/toot_store.c:84-90`), so two texts are enough to lose the order:
  `Numbering.IndicesCanWrap`, `EndToEnd.WrappedTextIsOutOfOrder`. Texts exactly a multiple of 2^32 writes apart
  share an index, and then their order is up to the sort (`EndToEnd.TurnLeavesOrderOpen`).
- A text written by repeated writes arrives whole iff it holds no NUL (`Writing.TextsAreWhole`), and every write
  of it is accepted iff it is UTF-8 and no character lies across a multiple of 99 bytes
  (`Writing.TextsAreUtf8`); `Writing.ValidTextFails` is a valid text that fails.
- `serialize_new_toot` does not fit its 10 bytes when both ids exceed 0xFFFF (`Serialize.TootMessageFits`). That
  takes minor numbers above 16 bits; with those of the driver, 0 to 33, no announcement is ever too long
  (`Runs.NoneTooLong`).
- A netlink message is deserialized with more bytes than its payload. A parse goes the same way whatever they are
  iff the parse of the payload alone is not short of bytes (`Truncation.TrailingMattersToParse`); then every answer
  stays. What decodes at the head of the payload, limits apart, does not depend on them iff the payload does not
  end before its object does (`Truncation.TrailingMatters`), and that is enough for what is a message to stay
  (`Deserialize.TrailingBytes`). A truncated object is completed by what follows, possibly to a message
  (`Deserialize.TrailingCompletes`), and a payload refused for want of bytes can run into an unhandled lead byte
  (`Deserialize.TrailingLosesAnswer`).
- `serialize_destroy_device_result` returns -1 on a writer error, which its bool result turns into success
  (`Serialize.DestroyDeviceResult`); in the handler its message always fits.
- A device leaves the store iff its destruction cannot be answered (`Runs.DeviceGoes`). With the answer sent it
  stays, ready, whoever asked: `Runs.DestroyedStays` is a run in which a foreign process destroys a device and
  the open toot on it lives on.
- The answers to a sent toot and to an element take effect for every process but the owner naming another
  device (`Runs.SendAnswerEnds`, `Runs.ElementAnswerEnds`); `Runs.ForeignerEndsToot` and
  `Runs.ForeignerAnswersElement` are runs in which a process that owns nothing does it. The element whose state
  changes is one whose id was never set. The model keeps all of this as it is; owner safety is proved of the
  create-toot answer: an open toot was opened by the process its device was made for (`Laws.OpenedByMaker`).
- `send_toot` takes the device from a stray toot id. Its message names the toot's own device iff the stray toot
  has the same one (`Runs.SendTootNames`), and a ready toot is sent iff the stray one is ready, too
  (`Runs.SendTootNeedsStray`). `Runs.SendTootMisnames` is a run of two processes in which the second is told
  that its toot is one of the first's device.
- `mpack_writer_destroy` drops the result of `mpack_track_destroy` (`driver/src/cremona/mpack.c:1327`), so
  a tracked writer can hand over incomplete objects without an error (`Tracking.AnnouncedOnly`). What it hands
  over is complete iff no open element lacks anything (`Writer.Writer.PerformAndDestroy`).

## Model

| member | source | states |
|---|---|---|
| Parser.StepConserves | driver/src/cremona/mpack.c:4862-4889 | a step of the parser keeps bytes parsed + children pending over all levels + bytes free equal to the data length, keeps every level inside the nodes handed out, and moves on by at least one byte |
| Parser.StepDecodes | driver/src/cremona/mpack.c:4909-4931 | the objects pending decode behind a step iff they decoded before it, and then the step took exactly what the recursive decoder takes for that object up to its children |
| Parser.StopDecodes | driver/src/cremona/mpack.c:4298-4325 | a parser that stops for want of bytes or at a bad lead byte was given bytes that no recursive decoder accepts, although bytes are claimed for every child as soon as a container is announced |
| Parser.StepsOnTrack | driver/src/cremona/mpack.c:4909-4931 | one iteration (node, then popping finished levels) keeps the whole invariant: accounts, disjoint ownership, nodes visited + nodes pending = nodes handed out, and every node handed out standing for a value of the tree to be built |
| Parser.StopsOnTrack | driver/src/cremona/mpack.c:4384-4418 | a parse stops only on data that is no object, or one with too many nodes for the pool or too deeply nested for the stack |
| Parser.FinishesOnTrack | driver/src/cremona/mpack.c:4909-4931 | a parse that ends has built the tree of the recursive decoder through the children indices, with size the bytes decoded, as many nodes as the value has, and no two nodes sharing children or payload bytes |
| Parser.StepSeparates | driver/src/cremona/mpack.c:4384-4482 | the child block and payload range a step hands out are disjoint from those of all nodes parsed before |
| Tree.TwiceIsExact | driver/src/cremona/mpack.c:4883-4883 | the 32-bit product of a map length and two is exact iff the length is below 2^31, and 2^32 too small otherwise |
| Parser.RepresentsOnce | driver/src/cremona/mpack.c:4899-4932 | a node of the pool represents at most one value |
| Walks.StepWalks | driver/src/cremona/mpack.c:4909-4931 | a step of the parser and the walk that keeps its accounts without a stack go the same way |
| Walks.StopWalks | driver/src/cremona/mpack.c:4493-4860 | where the parser stops the walk stops, for the same reason, want of bytes being one of its own |
| Walks.OutcomeOk | driver/src/cremona/mpack.c:4899-4932 | the walk gets through iff the recursive decoder accepts a prefix within the limits |
| Walks.UndefinedDecodes | driver/src/cremona/mpack.c:4855-4859 | when the parser comes to an unhandled lead byte, so does a decoder without limits |
| Walks.PlainDataHasAnswer | driver/src/cremona/mpack.c:4855-4859 | data without the bytes 0xca and 0xcb comes to no such byte, in a parse of any limits or in the reader |
| Walks.FloatIsUndefined | driver/src/cremona/mpack.c:4855-4859 | an array holding 0xca does, in the parser with the driver's limits and in the reader |
| Walks.ReaderMeetsMore | driver/src/cremona/mpack.c:2976-2980 | the reader comes to one in an array cut short, where the parser has given up for want of bytes |
| Walks.ObjectOutcome | driver/src/cremona/mpack.c:4899-4932 | given an object, a parse ends without an error or as too big, and without one iff the object is within the limits |
| Walks.BadOutcome | driver/src/cremona/mpack.c:4843-4859 | a parse that ends at a bad lead byte ends with the error of the decoder without limits |
| Tree.Tree.InitPool | driver/src/cremona/mpack.c:5146-5168 | a tree over a pool of any size, flagged as a bug when the pool is empty |
| Tree.Tree.ReserveBytes | driver/src/cremona/mpack.c:4298-4325 | reserving succeeds iff the reserved bytes stay within the bytes possibly left |
| Tree.Tree.ParseChildren | driver/src/cremona/mpack.c:4384-4475 | exact outcome of announcing children: their bytes are claimed, their nodes taken, a level pushed unless there are none; which of three limits fails decides the error |
| Tree.Tree.ParseHead | driver/src/cremona/mpack.c:4493-4860 | the tag read at the current byte is the one the format has there, or the error the format has, or too few bytes are left for it |
| Tree.Tree.ParseNodeContents | driver/src/cremona/mpack.c:4493-4860 | the in-place updates of one node equal the effect the abstract step prescribes, and it succeeds iff that step is possible |
| Tree.Tree.ParseNode | driver/src/cremona/mpack.c:4862-4889 | the byte accounts after a node: size moves by head and payload only, the free bytes also lose one for each child |
| Tree.Tree.ParseNext | driver/src/cremona/mpack.c:4909-4931 | the loop body equals the abstract step followed by popping |
| Tree.Tree.ContinueParsing | driver/src/cremona/mpack.c:4899-4932 | the iterative parse succeeds iff the recursive decoder accepts a prefix within the limits, then holds its tree, and otherwise ends with the error of the walk, an unhandled lead byte being one; it visits at most as many nodes as there are bytes and pool entries |
| Tree.Tree.ParseStart | driver/src/cremona/mpack.c:4955-5044 | the previous message is dropped from the front of the data and the root readied; an empty rest starts nothing |
| Tree.Tree.Parse | driver/src/cremona/mpack.c:5046-5075 | for every input, pool and stack: the error is exactly the outcome of the walk, Ok iff the data starts with an object that fits and Undefined iff an unhandled lead byte is met; without an error the pool represents the recursively decoded value and size is its length; an earlier error stays |
| Tree.Tree.Root | driver/src/cremona/mpack.c:5100-5115 | the root node shows the decoded value |
| Tree.Tree.ReadNode | driver/src/cremona/mpack.c:6412-6427 | reading a node through its type, length, bytes and children gives the value it shows |
| Tree.Tree.ArrayAt | driver/src/cremona/mpack.c:6412-6427 | the child node shows the indexed element iff the node is an array that has it |
| Tree.Tree.U32 | driver/src/cremona/mpack.c:6158-6172 | a number iff the node holds an integer, signed or not, that fits 32 unsigned bits |
| Tree.Tree.I32 | driver/src/cremona/mpack.c:6174-6188 | a number iff the node holds an integer, signed or not, that fits 32 signed bits |
| Tree.Tree.CopyUtf8Cstr | driver/src/cremona/mpack.c:5696-5728 | the terminated text is copied iff it is NUL-free UTF-8 that leaves room for the terminator; otherwise the buffer holds the empty string |
| Decoder.DecodeIgnoresTrailing | driver/src/cremona/mpack.c:5046-5075 | an object found in data is found alike with bytes behind it, and an object found with them is found without them iff it ends before them |
| Format.LoadIsBigEndian | driver/src/cremona/mpack.h:2034-2120 | what is loaded at any width is the number its bytes make as digits to base 256, and as a signed one the number they make in two's complement |
| Format.TwosComplementSign | driver/src/cremona/mpack.c:4717-4745 | that number is congruent to the plain one modulo 256 to the width, in the signed range, and negative iff the first byte is at least 0x80 |
| Format.ShortForms | driver/src/cremona/mpack.c:4493-4860 | by number, what tag each lead byte is that stands for itself |
| Format.LongForms | driver/src/cremona/mpack.c:4493-4860 | by number, what tag each lead byte makes of the 1, 2, 4 or 8 bytes behind it |
| Format.HeadsRead | driver/src/cremona/mpack.c:4843-4859 | a tag is rejected as invalid iff its lead byte is 0xc1, as unsupported iff it is one of 0xc7 to 0xc9 and 0xd4 to 0xd8, not handled iff it is 0xca or 0xcb, short iff the data ends before the size its lead byte calls for, and otherwise read with that size |
| Format.ObjectForms | driver/src/cremona/mpack.c:4384-4482 | what object a tag makes: a string or blob of the bytes behind it, an array of n objects, a map of 2n |
| Format.ClaimsComeFirst | driver/src/cremona/mpack.c:4298-4325 | an array that claims more children than there are bytes is invalid before it is too big for the pool or the stack |
| Format.DecodesIffWhole | driver/src/cremona/mpack.c:4843-4859 | an object is found iff a tag with its payload stands at every position where one is to be read, and refused for a bad lead byte iff one with that error stands at such a position |
| Format.OutcomeNeedsBytes | driver/src/cremona/mpack.c:4843-4859 | under any limits, a parse accepts nothing with a bad lead byte at such a position, and flags one, or runs into an unhandled one, only where it stands |
| Format.IntegersAreSpelled | driver/src/cremona/mpack.c:4684-4745 | bytes decode to an integer iff they are one of its forms: a fixint, or a lead byte 0xcc to 0xd3 with its digits, in two's complement from 0xd0 on |
| Format.ArrayDecodes | driver/src/cremona/mpack.c:4862-4889 | an array tag and the forms of n integers decode to an array of exactly those, of n + 1 nodes |
| Bytes.LoadStore | driver/src/cremona/mpack.h:2034-2120 | loading what was stored big-endian gives the number back, for widths 1, 2, 4 and 8 |
| Tags.TagRoundTrip | driver/src/cremona/mpack.c:1408-1465 | wherever an encoded tag stands, reading there gives it back up to the sign type of non-negative integers and consumes exactly its bytes |
| Tags.IntegersAreShortest | driver/src/cremona/mpack.c:1666-1797 | no bytes that read as an integer are fewer than those the writers emit for an equal one |
| Tags.TagsAreShortest | driver/src/cremona/mpack.c:1344-1375 | no bytes that read as a tag of any type are fewer than those the writers emit for it |
| Tags.CompareOrders | driver/src/cremona/mpack.c:308-384 | the comparison is antisymmetric and transitive, and by the number for any two integers |
| Tags.CompareByType | driver/src/cremona/mpack.c:308-384 | types compare in the order of their numbers, and within a type the value decides |
| Tags.EqualIffSameEncoding | driver/src/cremona/mpack.c:308-384 | tags compare equal iff they encode to the same bytes, which is iff they differ at most in the sign type of a non-negative integer |
| Decoder.RoundTrip | driver/src/cremona/mpack.c:1344-1375 | for every nested value the writers can emit, decoding its bytes wherever they stand returns the value up to the sign type of non-negative integers and consumes exactly them |
| Decoder.EncodingIsShortest | driver/src/cremona/mpack.c:1344-1375 | whatever decodes can be written, and no bytes that decode to a value are fewer than those the writers emit for it |
| Serialize.WriteThenParse | driver/src/cremona/mpack.c:5046-5075 | writing any value with the writers into a large enough buffer and tree-parsing the bytes returns it, iff its nodes fit the pool and its nesting the stack, consuming exactly the bytes written |
| Serialize.WriteValue | driver/src/cremona/mpack.c:1344-1375 | the calls that put out a value append exactly its encoding to whatever was written before |
| Tracking.RunOutstanding | driver/src/cremona/mpack.c:606-741 | after any run of calls without an error, however the bytes go on, they become complete objects exactly if what follows supplies the open elements, innermost first |
| Tracking.RunIsWellFormed | driver/src/cremona/mpack.c:606-741 | a run without an error has put out a concatenation of complete objects iff no open element lacks anything |
| Tracking.AnnouncedOnly | driver/src/cremona/mpack.c:1323-1342 | announcing an array and writing nothing more flags no error and is no object |
| Tracking.TagSupplies | driver/src/cremona/mpack.c:681-686 | a tag trades one object the innermost container lacks for what the tag itself announces |
| Writer.GrownSize | driver/src/cremona/mpack.c:1048-1050 | the grown size is at least double and at least what is needed |
| Writer.Writer.Init | driver/src/cremona/mpack.c:958-999 | an empty writer; a flush function is refused as a bug when the buffer is below the minimum size |
| Writer.Writer.MarkElement | driver/src/cremona/mpack.c:681-686 | tracking an element succeeds iff nothing is open or the innermost open element is a container that lacks one |
| Writer.Writer.MarkBytes | driver/src/cremona/mpack.c:688-713 | tracking bytes succeeds iff the innermost open element is no container and lacks that many |
| Writer.Writer.Finish | driver/src/cremona/mpack.c:628-654 | closing succeeds iff the innermost open element is of that kind and lacks nothing |
| Writer.Writer.GrowableFlush | driver/src/cremona/mpack.c:1010-1071 | in its three calling modes the growable flush loses nothing: what was in the buffer, followed by what was handed in, is in the buffer afterwards |
| Writer.Writer.FlushUnchecked | driver/src/cremona/mpack.c:1207-1214 | flushed bytes plus buffered bytes are the same before and after a flush |
| Writer.Writer.Ensure | driver/src/cremona/mpack.c:1239-1271 | room is made without changing what was written; with a fixed buffer it fails as too big |
| Writer.Writer.WriteNative | driver/src/cremona/mpack.c:1312-1321 | any bytes, larger than the buffer or not, are appended to the flat stream, and with a fixed buffer iff they fit |
| Writer.Writer.WriteNativeStraddle | driver/src/cremona/mpack.c:1273-1310 | the same for the path through flushes and direct writes |
| Writer.Writer.WriteNil | driver/src/cremona/mpack.c:1383-1385 | nil appends its one byte and takes an element of what is open |
| Writer.Writer.WriteBool | driver/src/cremona/mpack.c:1387-1389 | a bool appends its one byte |
| Writer.Writer.WriteU32 | driver/src/cremona/mpack.c:1666-1681 | an unsigned number appends its shortest encoding |
| Writer.Writer.WriteU64 | driver/src/cremona/mpack.c:1683-1697 | an unsigned number appends its shortest encoding |
| Writer.Writer.WriteI32 | driver/src/cremona/mpack.c:1735-1759 | a signed number appends its shortest encoding, unsigned when it is not negative |
| Writer.Writer.WriteI64 | driver/src/cremona/mpack.c:1761-1797 | a signed number appends its shortest encoding, unsigned when it is not negative |
| Writer.Writer.StartArray | driver/src/cremona/mpack.c:1838-1850 | an array tag is appended and the array opened with its count |
| Writer.Writer.StartMap | driver/src/cremona/mpack.c:1852-1864 | a map tag is appended and the map opened with twice its count |
| Writer.Writer.StartStr | driver/src/cremona/mpack.c:1905-1909 | a string tag is appended and the string opened with its length |
| Writer.Writer.StartBin | driver/src/cremona/mpack.c:1911-1915 | a blob tag is appended and the blob opened with its length |
| Writer.Writer.WriteTag | driver/src/cremona/mpack.c:1344-1375 | any tag appends its encoding |
| Writer.Writer.WriteStr | driver/src/cremona/mpack.c:1957-2010 | the three paths of writing a string all append its tag and its bytes |
| Writer.Writer.WriteBin | driver/src/cremona/mpack.c:2012-2018 | a blob appends its tag and bytes and leaves nothing open |
| Writer.Writer.WriteUtf8 | driver/src/cremona/mpack.c:2049-2056 | a string is written iff it is UTF-8, otherwise an error is flagged |
| Writer.Writer.WriteUtf8CstrOrNil | driver/src/cremona/mpack.c:2068-2073 | no string writes nil, otherwise the text up to its NUL is written iff it is UTF-8 of at most 2^32 - 1 bytes |
| Writer.Writer.PerformAll | driver/src/cremona/mpack.c:1838-1915 | any calls of a tracked writer that flag no error leave the outstanding obligation of the bytes as its open elements, and complete objects iff none of them lacks anything |
| Writer.Writer.PerformAndDestroy | driver/src/cremona/mpack.c:1323-1342 | destroying a tracked writer hands over exactly what the calls wrote, which is complete objects iff no open element lacked anything |
| Writer.Writer.Destroy | driver/src/cremona/mpack.c:1323-1342 | without an error, the sink, or the buffer of a growable or fixed writer, holds exactly everything written |
| Memory.MemMove | driver/src/cremona/mpack.c:190-202 | moving within one array, overlapping either way or not, leaves the old source bytes at the target and all else as it was |
| Memory.StrLen | driver/src/cremona/mpack.c:216-221 | the bytes before the first NUL |
| Reader.Reader.Init | driver/src/cremona/mpack.c:2088-2146 | the stream of a reader is the bytes in its buffer followed by the source; a buffer below the minimum size is refused as a bug |
| Reader.Reader.FillRange | driver/src/cremona/mpack.c:2282-2304 | for any fill function, between the least and most bytes asked for are taken off the source in order, or the source is too short and an I/O error is flagged |
| Reader.Reader.EnsureStraddle | driver/src/cremona/mpack.c:2306-2348 | moving the rest to the front and refilling leaves the stream as it was; it fails iff there is no fill function, the buffer is too small, or the stream too short |
| Reader.Reader.ReadNative | driver/src/cremona/mpack.h:4297-4307 | through every path, reading delivers the next bytes of the stream and consumes them, iff it has that many |
| Reader.Reader.ReadNativeStraddle | driver/src/cremona/mpack.c:2350-2418 | the same for the path that empties the buffer first and then refills it or reads past it |
| Reader.Reader.ReadInplace | driver/src/cremona/mpack.c:2600-2617 | in-place reading delivers and consumes the same bytes, iff no error was flagged before, the stream has them and the buffer can hold them |
| Reader.Reader.SkipBytes | driver/src/cremona/mpack.c:2451-2466 | skipping consumes the bytes of the stream, through the buffer, a skip function or by filling |
| Reader.Reader.ReadTag | driver/src/cremona/mpack.c:2983-3024 | the tag of the flat stream is delivered and its bytes consumed, iff the stream starts with one |
| Reader.Reader.Discard | driver/src/cremona/mpack.c:3041-3082 | discarding succeeds iff the recursive decoder accepts the stream, and consumes exactly its object; otherwise the error tells an unhandled lead byte, another bad one, and missing bytes apart |
| Agreement.ReadTags | driver/src/cremona/mpack.c:2983-3024 | reading tags and skipping payloads yields the tags of the decoded value depth first, and fails iff there is no such value, with an error that tells an unhandled lead byte from others |
| Agreement.ParseAndDiscard | driver/src/cremona/mpack.c:3041-3082 | the tree parser accepts exactly what the reader discards and the limits allow, both take the same number of bytes, and where the parser meets an unhandled lead byte so does the reader |
| Utf8.OctetsAreUtf8 | driver/src/cremona/mpack.c:755-843 | the grammar of section 4 of RFC 3629 is exactly the concatenations of encodings of Unicode scalar values |
| Utf8.EdgesOfThree | driver/src/cremona/mpack.c:805-806 | of three bytes, overlong forms are refused |
| Utf8.EdgesOfSurrogates | driver/src/cremona/mpack.c:807-808 | the bytes on either side of the surrogates are taken and the surrogates are not |
| Utf8.EdgesOfFour | driver/src/cremona/mpack.c:833-836 | of four bytes, overlong forms and values above 0x10ffff are refused, and 0x10000 and 0x10ffff are taken |
| Utf8.CheckImpl | driver/src/cremona/mpack.c:755-843 | the scanner accepts iff the bytes match that grammar, and without NUL when NUL is not allowed |
| Utf8.Check | driver/src/cremona/mpack.c:845-847 | accepts iff the bytes are the encoding of some text |
| Utf8.CheckNoNull | driver/src/cremona/mpack.c:849-851 | accepts iff they are the encoding of a text without U+0000 |
| Deserialize.GetHealth | driver/src/cremona/serializer.c:26-38 | yes iff the buffer starts with an array of at most 50 nodes within the depth limit whose first element fits 32 unsigned bits, and then the id is that element; in particular, for the bytes of any 1 to 49 integers, iff the first is from 0 to 4294967295; no answer iff the parse meets an unhandled lead byte, and no otherwise |
| Deserialize.CreateDevice | driver/src/cremona/serializer.c:40-54 | yes iff it starts with such an array whose first element is NUL-free UTF-8 of at most 49 bytes and whose second fits 32 unsigned bits; name and uid are those elements; no answer as above |
| Deserialize.DestroyDevice | driver/src/cremona/serializer.c:85-98 | yes iff the first element of such an array fits 32 unsigned bits, also told for the bytes of any integers; no answer as above |
| Deserialize.TootResult | driver/src/cremona/serializer.c:115-132 | yes iff such an array has two unsigned and one signed 32-bit element, which are the results, also told for the bytes of any integers; no answer as above |
| Deserialize.AddTootElementResult | driver/src/cremona/serializer.c:152-171 | yes iff such an array has three unsigned and one signed 32-bit element, which are the results; for the bytes of any integers in any form, these numbers themselves, the last from -2147483648 to 2147483647; no answer as above |
| Deserialize.IntegersArrive | driver/src/cremona/serializer.c:152-171 | the bytes of an array of integers are a message of those integers iff there are at most 49 of them |
| Deserialize.SignedExample | driver/src/cremona/serializer.c:152-171 | the bytes 0x94 0x00 0x00 0x00 0xd0 0xd8 are the array of 0, 0, 0 and -40 |
| Deserialize.EncodedArrives | driver/src/cremona/serializer.c:26-38 | an encoded value is a message iff it is an array with enough elements, of at most 50 nodes and depth 31, and each element comes back |
| Deserialize.NamesArrive | driver/src/cremona/serializer.c:40-54 | a name and a user that are sent are taken iff the name is NUL-free UTF-8 of at most 49 bytes |
| Deserialize.NestingLimit | driver/src/cremona/mpack-config.h:357-358 | nil in k arrays is a message iff k is from 1 to 31 |
| Truncation.TrailingMatters | driver/src/module/net_link_comm.c:17-17 | what is decoded at the head of a payload is the same whatever follows iff the payload does not end before its object does |
| Truncation.DecodeKept | driver/src/module/net_link_comm.c:17-17 | an object, or a bad lead byte in its way, is found alike with any bytes behind |
| Truncation.Complete | driver/src/module/net_link_comm.c:17-17 | every truncated object is completed by some bytes, and ends with them |
| Truncation.TrailingMattersToParse | driver/src/module/net_link_comm.c:17-17 | for every pool and stack, a parse goes the same way and ends with the same error whatever follows the payload iff the parse of the payload is not short of bytes |
| Truncation.WalkKept | driver/src/module/net_link_comm.c:17-17 | a walk that is not short of bytes is the same with any bytes behind |
| Truncation.PaddedWalk | driver/src/module/net_link_comm.c:17-17 | with enough nils behind the data no walk is short of bytes |
| Deserialize.TrailingBytes | driver/src/module/net_link_comm.c:17-17 | for a payload whose parse is not short of bytes the longer buffer gets every answer the payload gets; for one that does not end before its object does it holds a message iff the payload does; a message of the payload stays the same one |
| Deserialize.OwnMessage | driver/src/module/net_link_comm.c:17-17 | for any payload, a message found in the longer buffer is the payload's own iff it ends within the payload |
| Deserialize.TrailingLosesAnswer | driver/src/module/net_link_comm.c:17-17 | a payload that is refused by itself runs into an unhandled lead byte with any byte behind it |
| Deserialize.TrailingCompletes | driver/src/module/net_link_comm.c:17-17 | a message without its last byte is accepted with whatever byte follows |
| Deserialize.FirstMessage | driver/src/cremona/mpack.c:4955-4998 | at the head of a buffer an encoded message is found whole, whatever follows it, and fits iff its value does |
| Deserialize.ParseMessage | driver/src/cremona/mpack.c:5046-5075 | parsing again yields the next message and leaves what follows it |
| Deserialize.ParseInTurn | driver/src/cremona/mpack.c:5046-5075 | messages back to back are returned in turn by repeated parsing, each up to the sign type of its non-negative integers, and what follows them is left |
| Serialize.NewToot | driver/src/cremona/serializer.c:100-113 | succeeds iff the encoded message fits the buffer, which then starts with it; whatever follows, it is read as the array of the toot id and the device id |
| Serialize.CreateDeviceResult | driver/src/cremona/serializer.c:56-69 | succeeds iff the encoded message fits the buffer, which then starts with it; it is read as the array of the id |
| Serialize.DestroyDeviceResult | driver/src/cremona/serializer.c:71-84 | reports success even when the message does not fit, and then leaves the used size as it was; one that fits is read as the array of the id |
| Serialize.GetHealthResult | driver/src/cremona/serializer.c:11-25 | succeeds iff the encoded message fits the buffer, which then starts with it; it is read as the array of the device id and the status |
| Serialize.AddTootElement | driver/src/cremona/serializer.c:134-150 | succeeds iff the text is absent or UTF-8 and the encoded message fits the buffer, which then starts with it; it is read as the array of toot id, device id, element id, index, and the text up to its NUL or nil |
| Serialize.TootMessageFits | driver/src/cremona/toot.c:24-28 | the announcement of a toot outgrows its 10 bytes iff both ids exceed 0xFFFF |
| Serialize.ElementMessageFits | driver/src/cremona/toot.c:133-138 | a text of up to 177 bytes fits the 200 bytes whatever the ids and the index |
| Serialize.SerializeChunk | driver/src/module/device_store.c:61-65 | with the 100-byte chunk of a write, serializing an element succeeds iff the text is UTF-8 |
| Tables.LowestFree | driver/src/module/toot_store.c:57-58 | id allocation: the lowest id in the range that is not in use, or none iff all are |
| Tables.DeviceLeavesNoTrace | driver/src/module/device_store.c:137-160 | after a removal nothing refers to the device, and toots of other devices and their elements are as they were |
| Tables.RemovalsKeepConsistency | driver/src/module/toot_store.c:95-119 | removing an element, a toot or a device keeps every reference in the store intact |
| Tables.NoDevicesNothing | driver/src/module/store.c:50-58 | with no devices left there are no toots and no elements |
| Store.Store.AddDevice | driver/src/module/device_store.c:86-135 | a device that is not ready at the lowest free minor number, or no change |
| Store.Store.RemoveDevice | driver/src/module/device_store.c:137-160 | exactly the device, its toots and their elements go |
| Store.Store.RemoveTootsOf | driver/src/module/device_store.c:148-153 | the loop over ascending ids, which deletes as it goes, removes exactly the toots of the device and their elements |
| Store.Store.RemoveToot | driver/src/module/toot_store.c:95-119 | exactly the toot and its elements go |
| Store.Store.RemoveElementsOf | driver/src/module/toot_store.c:108-112 | the loop over ascending ids removes exactly the elements of the toot |
| Store.Store.AddToot | driver/src/module/toot_store.c:48-93 | a toot waiting for its answer at the lowest free id, only for a ready device |
| Store.Store.AddElement | driver/src/module/element_store.c:30-94 | an element with the next 32-bit index of its toot, only for an open toot of a ready device |
| Store.Store.GetOwner | driver/src/module/toot_store.c:204-234 | the device and process of a toot iff the toot is live and its device ready |
| Store.Store.SetTootState | driver/src/module/toot_store.c:160-203 | only a live toot of a ready device changes its state |
| Store.Store.SetElementState | driver/src/module/element_store.c:133-161 | only an element not yet answered, of an open toot, changes its state |
| Store.Store.Destroy | driver/src/module/store.c:50-64 | the loop over devices alone empties all three tables of a consistent store |
| Runs.StepKeepsConsistency | driver/src/cremona/toot.c:15-299 | every handler keeps every reference in the store intact |
| Runs.RunIsConsistent | driver/src/cremona/toot.c:15-299 | in every run, every element has its toot and every toot its device in the store |
| Runs.OnlyOwnerOpens | driver/src/cremona/toot.c:67-100 | a toot becomes open only by a create-toot result 0 from the process and for the device that own it |
| Runs.OwnerStays | driver/src/module/toot_store.c:160-203 | no step changes the device of a toot that stays, nor the process of that device |
| Runs.OwnerOverRun | driver/src/module/toot_store.c:160-203 | over any stretch of a run that a toot survives, it keeps its device and that device its process |
| Runs.OpenToot | driver/src/cremona/toot.c:67-100 | in every run, for an open toot there is an earlier step at which its owner announced it with result 0, and the owner is the same ever since |
| Runs.FinalStatesStay | driver/src/module/toot_store.c:23-46 | no step changes the state of a destroyed or failed toot that it does not remove |
| Runs.FinalOverRun | driver/src/module/toot_store.c:23-46 | in every run, a destroyed or failed toot is in no other state for as long as it is in the store |
| Runs.CreateAnswerEnds | driver/src/cremona/toot.c:67-100 | the answer to a new toot opens it for result 0 and fails it otherwise iff it is from its owner and names its device; nothing else changes |
| Runs.SendAnswerEnds | driver/src/cremona/toot.c:277-299 | the answer to a sent toot changes the store iff the toot is live, its device ready, and the answer not from the owner for another device; then only that toot ends |
| Runs.ElementAnswerEnds | driver/src/cremona/toot.c:182-217 | the answer to an element changes the store iff the same holds and the stray id is a live element's; then only that element |
| Runs.ForeignerEndsToot | driver/src/cremona/toot.c:288-291 | a run in which a process that owns nothing ends the toot of another |
| Runs.ForeignerAnswersElement | driver/src/cremona/toot.c:199-208 | a run in which a process that owns nothing answers for an element of another |
| Runs.DeviceGoes | driver/src/cremona/device.c:102-123 | a device leaves the store iff the event is its destruction and the answer could not be sent |
| Runs.DestroyedStays | driver/src/cremona/device.c:102-123 | a run in which a foreign process destroys a device, is told so, and the device stays ready with its open toot |
| Runs.SendTootNames | driver/src/cremona/toot.c:225-233 | the message of a sent toot names the toot's own device iff the stray toot id has the same one |
| Runs.SendTootNeedsStray | driver/src/cremona/toot.c:225-233 | in every run with minor numbers of 16 bits, a ready toot is sent iff the stray toot id is ready |
| Runs.SendTootMisnames | driver/src/cremona/toot.c:225-233 | a run of two processes in which the message for a toot of the second names the device of the first |
| Runs.DeviceIdsAreMinors | driver/src/module/device_store.c:95-98 | in every run the device ids lie between the least and the greatest minor number |
| Runs.NoneTooLong | driver/src/cremona/toot.c:24-28 | with minor numbers of 16 bits a toot is announced whenever one is added, and sent whenever its device is known |
| Laws.DeviceComes | driver/src/module/device_store.c:124-125 | a device that a step adds comes from a creation with memory and an answer sent, at the lowest free minor number, with the process and the user that asked, ready |
| Laws.DeviceStays | driver/src/cremona/device.c:102-123 | a step leaves a device as it is, except that its answered destruction marks it ready |
| Laws.TootComes | driver/src/module/toot_store.c:48-93 | a toot that a step adds comes from a request for a ready device that is announced, at the lowest free id, waiting, with whatever count was left there |
| Laws.TootGoes | driver/src/cremona/toot.c:40-50 | a step removes a toot iff it is a failed wait of create_toot for it, the end of a wait of send_toot for it, a send_toot whose stray toot is ready and which is too long, not ready or not sent, or an unsent destruction of its device |
| Laws.TootStays | driver/src/module/toot_store.c:160-203 | what a step makes of any toot that stays: only the two answers change its state, and only an element added to it its count |
| Laws.ElementComes | driver/src/module/element_store.c:30-94 | an element that a step adds comes from a UTF-8 text for an open toot that is sent, at the lowest free id, with the new count of its toot as index |
| Laws.ElementGoes | driver/src/cremona/toot.c:155-165 | a step removes an element iff it is a failed wait of add_toot_element for it, or its toot leaves |
| Laws.ElementStays | driver/src/module/element_store.c:133-161 | a step changes an element that stays only by an answer that passes the check, while it is unanswered and its toot open |
| Laws.SaysIsSpoken | driver/src/cremona/toot.c:15-299 | for every event and all tables of a run, the process a message is for and its fields in their order, or that there is none |
| Laws.SucceedsMeans | driver/src/cremona/toot.c:15-299 | for every event, when its handler returns true or goes on to wait |
| Laws.AddsIffSucceeds | driver/src/cremona/toot.c:15-165 | a step adds a device, a toot or an element iff the event that asks for one succeeds |
| Laws.DeviceMade | driver/src/cremona/device.c:57-59 | in every run, every device was made at an earlier step for the process and the user it has, and has had them ever since |
| Laws.OpenedByMaker | driver/src/cremona/toot.c:67-100 | in every run, an open toot was opened, after its device was made, by an answer of the very process the device was made for |
| Laws.TootCame | driver/src/module/toot_store.c:48-93 | in every run, every toot was added at an earlier successful request for the device it has had ever since |
| Laws.LivesIffNeverLeaves | driver/src/cremona/toot.c:40-50 | in every run, a toot is in the store from one point to another iff no step between them is one that makes it leave |
| Laws.ElementCame | driver/src/module/element_store.c:30-94 | in every run, every element was added at an earlier successful write of a UTF-8 text to the toot it has had ever since |
| Laws.ElementLivesIffNeverLeaves | driver/src/cremona/toot.c:155-165 | in every run, an element is in the store from one point to another iff no step between them is its own failed wait or makes its toot leave |
| Handlers.GetHealth | driver/src/cremona/device.c:16-39 | the answer goes to the asking process and says whether the device is its own and ready |
| Handlers.CreateDevice | driver/src/cremona/device.c:55-88 | when the device can be attached, the store moves by one step of the run, the answer carries the new id to the asking process, and success means that it was sent |
| Handlers.DestroyDevice | driver/src/cremona/device.c:102-123 | the store moves by one step, in which the device goes only when the answer cannot be sent; the answer goes to the asking process |
| Handlers.CreateToot | driver/src/cremona/toot.c:15-51 | the store moves by one step, and the announcement goes, encoded, to the process that owns the device, unless there is none or it is too long; it waits iff one was sent |
| Handlers.CreateTootResult | driver/src/cremona/toot.c:67-100 | the store moves by one step, and success means owner, device and result are right |
| Handlers.ReceiveCreateTootResult | driver/src/cremona/toot.c:52-66 | from the bytes of an answer: a step iff they hold the three numbers, and no change when they do not; bytes with an unhandled lead byte are told apart |
| Handlers.AddTootElement | driver/src/cremona/toot.c:109-165 | the store moves by one step, the message to the owner carries the new element with its index iff one is added and the text is UTF-8; it waits iff the message was sent |
| Handlers.AddTootElementResult | driver/src/cremona/toot.c:182-217 | the store moves by one step, which touches an element id that was never set; it succeeds iff the owner check is passed |
| Handlers.SendToot | driver/src/cremona/toot.c:225-261 | the store moves by one step; the message, if one is made, goes to the owner of the toot with the device of a stray toot id; it waits iff one was sent |
| Handlers.SendTootResult | driver/src/cremona/toot.c:277-299 | the store moves by one step; it succeeds iff the owner check is passed |
| Handlers.Dispatch | driver/src/cremona/dispatch.c:5-29 | every action moves the store by the step of its event, makes the message of that event, and succeeds when the event says so |
| Handlers.Replay | driver/src/cremona/dispatch.c:5-29 | running the handlers for any events on a fresh store ends in the tables of that run, which are consistent, and makes the messages of that run |
| Handlers.RunAndDestroy | driver/src/module/store.c:50-64 | unloading after any run empties all three tables |
| Handlers.MessagesRead | driver/src/cremona/serializer.c:100-150 | a message a handler makes is for the process and is read as exactly the fields that go with the event, whatever follows it |
| Writing.CutUtf8 | driver/src/module/device_store.c:65-66 | both parts of a cut are UTF-8 iff the whole is and the cut does not fall inside a character; of a UTF-8 text the first part is UTF-8 iff it does not |
| Writing.TakenWhole | driver/src/module/device_store.c:61-66 | a write of up to 99 bytes is taken whole, a longer one up to 99, and the rest of the 100 bytes is NUL |
| Writing.TootWrite | driver/src/module/device_store.c:51-78 | without a toot id or a copy nothing happens but the error; otherwise the handler adds the chunk of the write, up to 99 bytes; the error is returned when it does not wait |
| Writing.FinishWrite | driver/src/module/device_store.c:70-77 | after the wait the store makes the step of its end, and the bytes taken, at most 99, or -14 are returned |
| Writing.ChunkCount | driver/src/module/device_store.c:61-66 | repeated writes of a text make as many chunks as it has begun pieces of 99 bytes |
| Writing.TextsAreWhole | driver/src/module/device_store.c:61-66 | the texts of repeated writes joined are the text written iff it holds no NUL |
| Writing.TextsAreUtf8 | driver/src/module/device_store.c:61-66 | each chunk of a NUL-free text is UTF-8 iff the text is and no character lies across a multiple of 99 bytes |
| Writing.ValidTextFails | driver/src/module/device_store.c:65-66 | a valid text of 100 bytes whose last character is cut |
| Numbering.WritesAreNumbered | driver/src/module/element_store.c:81-88 | over any stretch of a run that a toot survives, its k-th text gets the index k + 1 behind the starting count, modulo 2^32 |
| Numbering.IncreasingIffNoWrap | driver/src/module/element_store.c:81-88 | the indices come out in write order iff they do not return to zero between the first and the last |
| Numbering.IndicesInOrder | driver/src/module/element_store.c:81-88 | indices at ascending positions rise iff the way from the first to the last, full turns left out, does not pass 2^32 and no two neighbours are full turns apart |
| Numbering.InOrderIffNoWrap | driver/src/module/element_store.c:81-88 | for positions less than 2^32 apart that is that the indices from the first to the last do not wrap |
| Numbering.SentInOrder | driver/src/module/element_store.c:81-88 | over any stretch of a run that a toot survives, the texts sent have rising indices iff their positions among those written say so |
| Numbering.IndicesCanWrap | driver/src/module/toot_store.c:84-90 | a run whose leftover count is just below 2^32 hands the second of two texts the smaller index |
| Assembly.OnlyOneOrder | daemon/internal/toot/toot.go:24-24 | elements with distinct indices have one ordered permutation, so sorting need not be stable |
| Assembly.Toot.AddElement | daemon/internal/toot/toot.go:19-21 | the element is appended |
| Assembly.Toot.GetText | daemon/internal/toot/toot.go:23-31 | the text is the concatenation of the elements, which end up ordered and otherwise the same |
| Assembly.TootManage.NewToot | daemon/internal/toot/toot_manager.go:33-43 | an empty toot under a new id, an error and no change for one that is held |
| Assembly.TootManage.AddTootElement | daemon/internal/toot/toot_manager.go:45-55 | the element goes to the toot of that id and to no other |
| Assembly.TootManage.SendToot | daemon/internal/toot/toot_manager.go:57-71 | the sender is given the ordered text; the toot goes iff the sender accepts it |
| EndToEnd.MessageDelivers | driver/src/cremona/serializer.c:134-150 | the message of a write decodes to its toot, its index and its text, whatever follows in the buffer |
| EndToEnd.MessagesDeliver | driver/src/cremona/toot.c:109-165 | the element messages that a run makes and sends for a toot deliver, one by one, exactly the texts of it that were sent |
| EndToEnd.Play | daemon/internal/toot/toot_manager.go:45-71 | calls for any toots in any order leave a toot with exactly the elements that arrived for it |
| EndToEnd.SendInWriteOrder | daemon/internal/toot/toot.go:19-31 | whatever the arrival order and whatever happens to other toots, the daemon sends the texts that were sent to it in the order they were written, if their indices are in order |
| EndToEnd.UserTextArrives | daemon/internal/toot/toot.go:19-31 | a text written piece by piece, each piece added and sent, whose messages reach the daemon in any order among those of other toots: if the indices do not wrap, the daemon sends the text itself iff it holds no NUL |
| EndToEnd.ChunksAreWritten | driver/src/module/device_store.c:51-78 | chunks that are added and sent are the writes of the toot, in order, and all UTF-8 |
| EndToEnd.WriteOrderIsSorted | daemon/internal/toot/toot.go:23-31 | the write order of the texts sent is one that sorting may produce iff no index falls behind |
| EndToEnd.SortingRestoresOrder | daemon/internal/toot/toot.go:23-31 | unless neighbours are full turns of the index apart, the sorted elements are the texts sent in write order iff their indices are in order |
| EndToEnd.TurnLeavesOrderOpen | daemon/internal/toot/toot.go:24-24 | when they are, sorting may exchange them |
| EndToEnd.WrappedTextIsOutOfOrder | daemon/internal/toot/toot.go:23-31 | in the run that wraps, the daemon sends the second text before the first |

## Left out

- Floats, doubles, extensions, timestamps, compatibility mode, printing and stdio: compiled out of the driver or pure I/O.
- What happens after an unhandled lead byte 0xca or 0xcb: the model ends there with an outcome of its own (`Undefined`, `Unreachable`), which stands for no promise at all.
- Tree.Tree.InitPool: asks for a pool or data below 2^32, because the 32-bit product in `mpack_tree_parse_node` is exact only then (`Tree.TwiceIsExact`); its stack has at least one level, as the driver's constant 32 does.
- `mpack_tree_try_parse`, read functions and everything under `MPACK_MALLOC` in the tree parser: not built into the driver. The growable writer and write tracking are not built in either, but are modelled.
- Checks against `SIZE_MAX`: `size_t` is unbounded here; on 64 bits they cannot fail for lengths below 2^32.
- Writer.Writer.Destroy: after an error nothing is said about what reached the sink, as a failed writer may have put out part of its bytes.
- Writer.Writer.MarkOpen: the memory the track needs is an arbitrary success or failure.
- Writer.Writer.WriteNative: for a writer that flushes, an I/O or memory failure may be flagged at any flush, so only the outcome without an error is exact.
- Writers for 8- and 16-bit integers, unterminated or unchecked C strings and pre-encoded objects: their bytes follow the same encoder or are the caller's.
- Reader.Reader.FillRange: a fill function returns bytes or 0 at the end of its source; one that flags an error of its own is left out, as its error would simply stay.
- Reader tracking, reading into allocated memory, `mpack_peek_tag` and `mpack_done_*`: not built in, or easy given the stream.
- Maps looked up by key, and the other node accessors: the driver reads arrays of integers and one string only.
- The kernel: locks, wait queues, netlink, class devices and `kmalloc`. An idr is a finite map that hands out its lowest free id; memory and sending succeed or fail as the event says.
- Interleavings inside a store operation or between two of one handler, before it waits: each handler is one step up to its wait. The source checks and writes a toot's state in separate critical sections.
- Handlers.CreateDevice: a device that cannot be attached is left out, because `attach_device_class` then returns with its semaphore held and the handler waits for it for ever.
- Handlers.ReceiveCreateTootResult: promises nothing of the store for bytes with an unhandled lead byte, as C does not.
- Writing.TootWrite: what it returns after waiting is left to `Writing.FinishWrite`, as the end of the wait is an event of its own.
- The memory of a device's name, and the use of freed entries by a handler that wakes up: what it finds is an arbitrary part of its resuming event.
- Devices, toots and elements of the store as objects of their own: they are values in the tables, so aliasing of one entry by two handlers is not captured.
- Handlers.DestroyDevice: says nothing of who may destroy a device, because the source does not check.
- Handlers.AddTootElementResult, Handlers.SendTootResult: their owner check is stated as it is, not as its error message reads.
- The bodies of `get_toot_when_ready` and the wait functions after a wake-up: the resuming events take their outcome as given, which allows more runs than the driver has.
- `sort.Slice` is a library function: the model sorts by insertion, and only the order and the permutation are used.
- The daemon's connections, including the reassembly of multi-part messages in `connection.go`, its message structs, the Mastodon client, configuration and process supervision: library calls and I/O.
- The daemon decodes messages with a library; `EndToEnd.Delivers` states what a message holds by the recursive decoder of this project.
