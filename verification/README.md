# Verification of the flight-sharing add-on and its networking library

A Dafny model of the parts of Multicrew and of the RakNet library it ships
with where the state, the arithmetic or the interleavings are hard, with
proofs of what those parts promise.

- **Multi-precision integers** (`PowerOfTwo`, `Words`, `WordOps`, `BigTypes`,
  `BigShift`, `BigMultiply`, `BigDivide`, `BigSigned`, `BigText`).  Numbers are
  little-endian arrays of 32-bit words that are overwritten in place.  `Val`
  and `SVal` give the unsigned and the two's-complement number of an array, and
  every method says which number its arrays hold afterwards, for any word
  count and, where the program tolerates it, with arguments that are the same
  array.
- **Bit streams and compressed integers** (`Bits`, `BitLayout`, `BitStreams`,
  `CompressedIntegers`).  A growing byte array refines the sequence of bits
  written to it.
- **Huffman codes** (`PrefixCodes`, `HuffmanTrees`, `HuffmanOptimality`,
  `HuffmanCodes`, `HuffmanNodes`, `HuffmanEncoding`) and the strings coded with
  them (`CStrings`, `StringCompression`).  The linked nodes, the sorted list
  and the code table refine a function on trees; that function's code is
  optimal among all prefix codes, and what is encoded is decoded again.
- **Channel numbers** (`ChannelSteps`, `ChannelNetwork`, `ChannelRuns`,
  `ChannelConservation`, `ChannelDelivery`, `ChannelLimit`, `ChannelObjects`).  One host and any
  number of clients exchange packets in any delivery order and with losses of
  unsafe packets.  The step functions are what the class does; the runs are
  about the whole network.
- **The image stream** (`MetafileSteps`, `MetafileRuns`, `MetafileWaiting`,
  `MetafileSettled`, `MetafileDivided`).  One compressor and any number of decompressors; resets
  arrive at any moment, also while an image is being compressed without the
  lock.
- **Search trees** (`BinaryTrees`, `TreeRemovals`, `TreeClimbs`,
  `LinkedTrees`, `SearchTrees`).  Nodes with two pointers, no parent pointers
  and no stack, refine trees.
- **Block encryption** (`AESTables`, `AES`, `AESCipher`, `BlockChains`,
  `Encryptor`).  The cipher has the shape of sections 5.1 and 5.3 of FIPS 197,
  with its substitution, row shifts and column mixing and the multiplication of
  its section 4.2, but the state lies in rows, and the key schedule rotates
  words the other way and starts at the second round constant.  So it is
  proved what its parts compute and that it can be inverted, not that it
  conforms.
- **Packets** (`Unsigned`, `Packets`).  Packets that wrap or hold packets
  compile into buffers and are taken apart again.
- `Options` holds the type of a value that may be missing.

Where the program works in place the model does, too: classes and arrays with
methods that are proved against functions of the old state, and lemmas about
those functions.

## What turned out not to hold

The model keeps the program as it is.  Where a promise fails, a lemma says
exactly when it holds.

- Signed division into the dividend's own array treats a negative dividend as
  its unsigned pattern, because the sign is read after the copy
  (`BigSigned.DividingInPlace`); dividing the least number by -1 wraps
  (`BigSigned.SDivideExact`).
- Multiplying zero through the cipher's log tables is wrong on one side
  (`AESTables.TablesMultiply`); the cipher only multiplies by constants.
- With more than 4080 channel ids a number no longer fits into the key, and
  clients dispatch packets under ids they were not sent under
  (`ChannelLimit.LimitIsExact`); but no safe packet gets lost and none comes
  twice (`ChannelConservation.NothingAstray`).  Every run can go on to mistake
  every id whose number has lost its upper part
  (`ChannelLimit.AstrayBeyondLimit`): the packet is dispatched under the
  registered id with the number that is left, or under no id where that is
  below 16.  A client that knows that other id already does it at once
  (`ChannelLimit.ShortKeyMisleads`).
- A client that joins a settled image stream while the counter runs divides
  the clients, whatever is under way (`MetafileDivided.LateClientDivides`).
  From then on no run settles the stream and of every image that two divided
  clients have received one has rejected it, until a packet is sent whose
  counter wraps (`MetafileDivided.StaysApart`, `MetafileDivided.DividedForever`).
  A first client, an image and a second client lead there
  (`MetafileDivided.ClientsGetDivided`).  Clients that are not divided can
  always get in step (`MetafileDivided.TogetherRecovers`).
- Rebalancing after a deletion takes a double rotation where the sibling's
  children are equally high, and then the result need not be balanced
  (`BinaryTrees.EqualChildren`, `BinaryTrees.EqualChildrenLeft`).  A deletion
  keeps a balanced tree balanced exactly if the climb from the removed node
  meets no such place whose inner grandchild is too low on its outer side
  (`SearchTrees.BinarySearchTree.DelBalanced`); adding 20, 10, 50, 15, 40, 60,
  30 and 70 and deleting 15 leads to one (`TreeClimbs.RemovalUnbalances`).
  On a tree that is not balanced adding and deleting still terminate with the
  right elements in order, since no node is rotated more than twice
  (`TreeClimbs.FewerTurns`).
- Deleting from a tree of one element empties it, whatever is to be deleted
  (`SearchTrees.BinarySearchTree.Del`).
- The compressed form of a signed integer is shorter only if that is negative;
  any other takes one bit more than the integer itself
  (`CompressedIntegers.CompressedSize`).
- A string whose code takes 65536 bits or more comes back as a part of itself
  (`StringCompression.StringComesBack`), which is so for all strings of 65536
  characters or more (`StringCompression.LongStringIsCut`).
- Generating a tree from strings counts a single byte behind them
  (`StringCompression.CountedAfterIsRight`).
- An array packet that was received and not yet looked into compiles to an
  empty one (`Packets.CompiledUnread`); a factory for named packets
  leaves the name's terminating zero in front of the packet below
  (`Packets.FactoryKeepsZero`); names with a zero in them do not come back
  (`Packets.NameAndWrappeeBack`).

## Model

| member | source | states |
|---|---|---|
| BigTypes.Add | RakNet/Source/BigTypes.h:654-719 | the sum modulo the width, also when both arguments are one array |
| BigTypes.Subtract | RakNet/Source/BigTypes.h:776-841 | the difference modulo the width, also when both arguments are one array |
| BigTypes.Increment | RakNet/Source/BigTypes.h:722-726 | one more modulo the width, although the loop stops at the first word that does not wrap |
| BigTypes.Negate | RakNet/Source/BigTypes.h:855-861 | the additive inverse modulo the width |
| BigTypes.UGreater | RakNet/Source/BigTypes.h:349-361 | true exactly if the first number is greater |
| BigTypes.USetLow | RakNet/Source/BigTypes.h:313-317 | zero-extension keeps the unsigned number |
| BigSigned.SSetLow | RakNet/Source/BigTypes.h:320-324 | sign-extension keeps the signed number and its sign bit |
| BigShift.ShiftLeft | RakNet/Source/BigTypes.h:473-504 | multiplication by a power of two modulo the width, whole words moved first |
| BigShift.UShiftRight | RakNet/Source/BigTypes.h:521-552 | division by a power of two, rounded down |
| BigShift.ShiftLeft1 | RakNet/Source/BigTypes.h:459-470 | doubling modulo the width |
| BigShift.UShiftRight1 | RakNet/Source/BigTypes.h:507-518 | halving, rounded down |
| BigMultiply.ShiftAdd | RakNet/Source/BigTypes.h:919-948 | the shift-and-add loop with deferred shifts yields the product modulo the width of the result |
| BigMultiply.UMultiply | RakNet/Source/BigTypes.h:912-949 | the product modulo the width of the result, which is the exact product if that has twice the words |
| BigMultiply.UMultiplyBy | RakNet/Source/BigTypes.h:952-992 | multiplication in place, modulo the width |
| BigSigned.SMultiply | RakNet/Source/BigTypes.h:1043-1099 | the two's-complement product modulo the width, exact if the result has twice the words |
| BigSigned.SMultiplyBy | RakNet/Source/BigTypes.h:1102-1158 | signed multiplication in place, modulo the width |
| BigDivide.Align | RakNet/Source/BigTypes.h:1175-1216 | the divisor is shifted, by words and then by bits and back off again, to the last place where it is not above the remainder |
| BigDivide.UDivide | RakNet/Source/BigTypes.h:1164-1243 | terminates with a = q * b + r and r < b, for every aliasing of the operands except q with r |
| BigDivide.UModulo | RakNet/Source/BigTypes.h:1246-1309 | terminates with the remainder of the division |
| BigDivide.QuotientIsEuclidean | RakNet/Source/BigTypes.h:1163-1164 | what udivide promises determines the quotient and the remainder |
| BigSigned.SDivide | RakNet/Source/BigTypes.h:1312-1406 | the truncated quotient modulo the width and the remainder with the sign of the dividend; the dividend read unsigned if it is also the quotient |
| BigSigned.SDivideExact | RakNet/Source/BigTypes.h:1311-1406 | with distinct operands the remainder is small and signed like the dividend, and a = q * b + r unless the least number is divided by -1 |
| BigSigned.DividingInPlace | RakNet/Source/BigTypes.h:1318-1345 | dividing into the dividend's array is right exactly if the dividend is not negative or the divisor is 1 or -1 |
| BigSigned.TruncatedUnique | RakNet/Source/BigTypes.h:1311-1312 | the truncated quotient and remainder are the only ones with the sign and size they have |
| BigSigned.SModulo | RakNet/Source/BigTypes.h:1409-1485 | the remainder of truncated division |
| BigText.ToString | RakNet/Source/BigTypes.h:1493-1530 | terminates with the sign and the digits of the number in the radix |
| BigText.FromString | RakNet/Source/BigTypes.h:1533-1569 | the array holds, modulo the width, the number that the digits behind the last minus sign denote, negated if there is one in a signed reading |
| BigText.TextRoundTrip | RakNet/Source/BigTypes.h:1493-1569 | digits printed in a radix from 2 to 36 denote the number again |
| BigText.PrintedNumberReadsBack | RakNet/Source/BigTypes.h:1493-1569 | the text of a signed or unsigned number denotes it again, and fits its width |
| BigText.RoundTrip | RakNet/Source/BigTypes.h:1493-1569 | fromString of toString gives back the same words |
| BigText.DigitsAre | RakNet/Source/BigTypes.h:1516-1521 | the digits printed are the ten figures and then the small letters in their order; they are read as what they stand for, and capitals like small letters |
| BigText.TextAt | RakNet/Source/BigTypes.h:1508-1525 | each place of a printed number, counted from the right, shows the digit of that power of the radix, below the radix, and no number but 0 begins with a zero |
| BigText.RadixIsTen | RakNet/Source/BigTypes.h:1493-1569 | in every radix, the radix is printed as 10 and 10 denotes it |
| BitStreams.BitStream.AddBitsAndReallocate | RakNet/Source/BitStream.cpp:1083-1112 | growing keeps the contents and leaves room for the bits to be written |
| BitStreams.BitStream.WriteBits | RakNet/Source/BitStream.cpp:825-876 | the contents grow by exactly the bits denoted, at any offset; the unused bits of the last byte stay zero exactly if the data is right-aligned or has zeros there as far as they are stored |
| BitStreams.BitStream.Write0 | RakNet/Source/BitStream.cpp:730-740 | the contents grow by a 0 bit |
| BitStreams.BitStream.Write1 | RakNet/Source/BitStream.cpp:743-755 | the contents grow by a 1 bit |
| BitStreams.BitStream.ReadBit | RakNet/Source/BitStream.cpp:758-763 | the bit at the read offset, which moves on by one |
| BitStreams.BitStream.ReadBits | RakNet/Source/BitStream.cpp:957-1005 | fails exactly if there are too few bits, and then changes nothing; otherwise the next bits, with the last ones at the right of their byte or at its left as asked for, and no other byte of the output changes |
| BitStreams.BitStream.SetData | RakNet/Source/BitStream.cpp:879-893 | the contents are the given bits |
| BitStreams.BitStream.CopyData | RakNet/Source/BitStream.cpp:1154-1163 | a copy that holds exactly the contents |
| BitLayout.SplicedHolds | RakNet/Source/BitStream.cpp:843-868 | a byte split over two bytes at any bit offset continues the bits, and the tail stays zero exactly if the rest of the byte is, as far as it is stored |
| BitLayout.RightPackedPayload | RakNet/Source/BitStream.cpp:825-1005 | reading as many bits as were written gives back the bytes written |
| BitLayout.PayloadOfRightPacked | RakNet/Source/BitStream.cpp:825-1005 | writing what was read denotes the same bits again |
| CompressedIntegers.WriteCompressed | RakNet/Source/BitStream.cpp:896-952 | the contents grow by the compressed form of the integer |
| CompressedIntegers.ReadCompressed | RakNet/Source/BitStream.cpp:1008-1080 | fails exactly if the bits run out; otherwise the expanded integer, and the offset moves by the bits it takes |
| CompressedIntegers.CompressedRoundTrip | RakNet/Source/BitStream.cpp:896-1080 | for every byte length, signed or unsigned, expanding the compressed form gives the integer and takes exactly its bits, whatever follows |
| CompressedIntegers.CompressedLength | RakNet/Source/BitStream.cpp:895-952 | the compressed form never takes more than one bit more than the integer, and never less than one bit a byte and four more |
| CompressedIntegers.HighBytesShrink | RakNet/Source/BitStream.cpp:902-918 | each high zero byte of an unsigned integer, and each high byte 0xFF of a signed one, becomes a 1 bit in front of the form of what is left |
| CompressedIntegers.OtherBytesStay | RakNet/Source/BitStream.cpp:919-931 | with any other high byte, all bytes follow a 0 bit |
| CompressedIntegers.LowByteShrinks | RakNet/Source/BitStream.cpp:936-951 | the low byte takes its lower half behind a 1 exactly if it is unsigned and below 16, or signed and at least 0xF0; otherwise all of it behind a 0 |
| CompressedIntegers.CompressedSize | RakNet/Source/BitStream.cpp:896-952 | the exact number of bits of every integer, by the number of its high bytes that shrink |
| CompressedIntegers.FiveInSixBits | RakNet/Source/BitStream.cpp:896-952 | the unsigned 16-bit number five becomes 110101 |
| PrefixCodes.KraftInequality | RakNet/Source/HuffmanEncodingTree.cpp:130-172 | the word lengths of every binary prefix code satisfy Kraft's inequality |
| HuffmanOptimality.MergeCostIsLeast | RakNet/Source/HuffmanEncodingTree.cpp:103-128 | merging the two least weights costs no more than any word lengths that satisfy Kraft's inequality |
| HuffmanCodes.WeightIsTotal | RakNet/Source/HuffmanEncodingTree.cpp:114-114 | as long as the sum does not wrap, a node's stored weight is the sum of its leaves |
| HuffmanCodes.BuildCost | RakNet/Source/HuffmanEncodingTree.cpp:105-128 | the tree the loop builds costs what merging the two least of its weights over and over costs |
| HuffmanCodes.EveryMergeTakesLightest | RakNet/Source/HuffmanEncodingTree.cpp:103-128 | in every turn of the loop the two trees taken from the front of the list are the two lightest in it |
| HuffmanCodes.CodedCost | RakNet/Source/HuffmanEncodingTree.cpp:138-172 | the weighted length of a tree's code is the cost of the tree |
| HuffmanCodes.HuffmanIsOptimal | RakNet/Source/HuffmanEncodingTree.cpp:76-173 | of all binary prefix codes for the same symbols none has a smaller sum of frequency times word length than the generated one, a frequency of 0 counting as 1 |
| HuffmanCodes.HuffmanIsLeast | RakNet/Source/HuffmanEncodingTree.cpp:92-173 | the same for a table without zeros, in the frequencies of the table itself |
| HuffmanCodes.ZeroIsOne | RakNet/Source/HuffmanEncodingTree.cpp:92-95 | a frequency of 0 leads to the same tree as 1 |
| HuffmanCodes.InsertedWhere | RakNet/Source/HuffmanEncodingTree.cpp:273-306 | a new tree goes right behind all lighter ones, so before those of its own weight |
| HuffmanCodes.HuffmanLighterLeft | RakNet/Source/HuffmanEncodingTree.cpp:109-114 | at every node of the tree the lighter part is on the left |
| HuffmanCodes.HuffmanPrefixFree | RakNet/Source/HuffmanEncodingTree.cpp:130-172 | no generated code word begins another |
| HuffmanCodes.AllSymbols | RakNet/Source/HuffmanEncodingTree.cpp:86-128 | every symbol has exactly one leaf |
| HuffmanCodes.LongWord | RakNet/Source/HuffmanEncodingTree.cpp:186-206 | with more than 2^m leaves some code word is longer than m bits |
| HuffmanNodes.InsertNodeIntoSortedList | RakNet/Source/HuffmanEncodingTree.cpp:273-306 | the linked list stands for the old trees with the new one at its sorted place |
| HuffmanNodes.Merge | RakNet/Source/HuffmanEncodingTree.cpp:111-116 | the new node's tree has the two merged trees as its children, and their parent pointers lead to it |
| HuffmanNodes.MergeAll | RakNet/Source/HuffmanEncodingTree.cpp:105-128 | the linked nodes stand for the tree that merging the two lightest trees ends with |
| HuffmanEncoding.MakeLeaves | RakNet/Source/HuffmanEncodingTree.cpp:86-100 | one linked leaf for every symbol, zero weights raised to one, in a sorted list |
| HuffmanEncoding.ClimbToRoot | RakNet/Source/HuffmanEncodingTree.cpp:146-156 | following parent pointers yields the path of a leaf backwards and never overruns the path buffer |
| HuffmanEncoding.MakeTable | RakNet/Source/HuffmanEncodingTree.cpp:138-172 | the table holds, as left-aligned bits, the path of every leaf |
| HuffmanEncoding.HuffmanEncodingTree.GenerateFromFrequencyTable | RakNet/Source/HuffmanEncodingTree.cpp:76-173 | the object's tree is the Huffman tree of the table, and its code table is that tree's code |
| HuffmanEncoding.HuffmanEncodingTree.EncodeArray | RakNet/Source/HuffmanEncodingTree.cpp:176-208 | the output grows by the code words of the input and a proper prefix, shorter than a byte, of some code word, and ends on a whole byte |
| HuffmanEncoding.HuffmanEncodingTree.PadToByte | RakNet/Source/HuffmanEncodingTree.cpp:186-206 | a code word longer than the missing bits is always found |
| HuffmanEncoding.HuffmanEncodingTree.DecodeArray | RakNet/Source/HuffmanEncodingTree.cpp:210-240 | takes exactly the given bits, stores the symbols they complete as far as they fit, and counts them all |
| HuffmanEncoding.HuffmanEncodingTree.DecodeBytes | RakNet/Source/HuffmanEncodingTree.cpp:243-270 | appends the symbols that the given bits complete |
| HuffmanEncoding.DecodesItsCode | RakNet/Source/HuffmanEncodingTree.cpp:176-270 | decoding code words and padding gives exactly the bytes encoded, none from the padding |
| HuffmanEncoding.LongSymbol | RakNet/Source/HuffmanEncodingTree.cpp:186-206 | among the 256 symbols one has a code word of more than seven bits |
| StringCompression.StringCompressor.EncodeString | RakNet/Source/StringCompressor.cpp:341-367 | the output grows by the compressed 16-bit length and as many code bits as it says; nothing is written for no string |
| StringCompression.StringCompressor.DecodeString | RakNet/Source/StringCompressor.cpp:369-393 | succeeds exactly if the announced bits are there, moves behind them, and terminates what fits of the decoded string; a failure leaves a zero at the front of the output and changes nothing else of it |
| StringCompression.StringComesBack | RakNet/Source/StringCompressor.cpp:341-393 | what comes back is a prefix of the string, and the whole string exactly if its code takes less than 65536 bits; what follows stays in the stream |
| StringCompression.LongStringIsCut | RakNet/Source/StringCompressor.cpp:360-364 | every string of 65536 characters or more comes back as a shorter prefix of itself |
| StringCompression.SentSize | RakNet/Source/StringCompressor.cpp:360-366 | the length takes 6 bits in front of less than 16 bits of code, 10 in front of less than 256, and otherwise 17 |
| StringCompression.StringArrives | RakNet/Source/StringCompressor.cpp:341-393 | the C string in the output is the string sent, cut where either side cuts it |
| StringCompression.CutOff | RakNet/Source/StringCompressor.cpp:360-364 | code cut off at any bit decodes to a shorter prefix of the string |
| StringCompression.StringCompressor.GenerateTreeFromStrings | RakNet/Source/StringCompressor.cpp:308-333 | the new tree is the one for a table that counts the byte behind the input once |
| StringCompression.CountedAfterIsRight | RakNet/Source/StringCompressor.cpp:322-327 | that table is the input's exactly for one byte with its like behind it |
| ChannelSteps.KeyRecovered | multicrewcore/channelprotocol.cpp:420-422 | the kind comes back from the 16-bit key, and the number exactly if it is below 4096 |
| ChannelObjects.ChannelProtocol.Start | multicrewcore/channelprotocol.cpp:156-168 | a session starts with empty tables and nothing waiting |
| ChannelObjects.ChannelProtocol.RegisterNetworkChannel | multicrewcore/channelprotocol.cpp:181-192 | the channel is added with the number its id has, and channels keep agreeing with the tables |
| ChannelObjects.ChannelProtocol.UnregisterNetworkChannel | multicrewcore/channelprotocol.cpp:195-202 | just the channel goes; the tables stay, and the other channels keep agreeing with them |
| ChannelObjects.ChannelProtocol.ReservedChannel | multicrewcore/channelprotocol.cpp:205-207 | the ordering channel for number messages is always a reserved one, in turn |
| ChannelObjects.ChannelProtocol.SetIdNum | multicrewcore/channelprotocol.cpp:249-268 | a known id keeps its number; an unknown one gets it in both tables and in all its channels |
| ChannelObjects.ChannelProtocol.CreateIdNum | multicrewcore/channelprotocol.cpp:234-246 | the object takes the step of creating a number, and all channels of the id learn it |
| ChannelObjects.ChannelProtocol.SendChannelPacket | multicrewcore/channelprotocol.cpp:271-336 | the object takes the step of sending and sends what the step sends |
| ChannelObjects.ChannelProtocol.Receive | multicrewcore/channelprotocol.cpp:419-524 | the object takes the step of receiving, replying and dispatching what the step does |
| ChannelNetwork.StepKeeps | multicrewcore/channelprotocol.cpp:234-524 | every step of host, client or network keeps the tables in agreement, what waits asked for, and every packet accounted for |
| ChannelRuns.Reachable | multicrewcore/channelprotocol.cpp:156-524 | the invariant holds after every run that gave at most 4080 ids |
| ChannelRuns.HostNumbersAgree | multicrewcore/channelprotocol.cpp:234-246 | in every run, with any number of ids, the host's numbers are exactly 16 to 15 + n and its tables invert each other |
| ChannelRuns.ClientNumbersAgree | multicrewcore/channelprotocol.cpp:249-268 | in every run that gave at most 4080 ids both of a client's tables are contained in the host's |
| ChannelConservation.NothingAstray | multicrewcore/channelprotocol.cpp:271-524 | in every run, with any number of ids: as often as a payload was sent to a client it is in flight, waiting, dispatched or lost, and lost only with unsafe packets; with at most 4080 ids the same of each packet under its id; likewise upwards |
| ChannelConservation.WaitingIsAskedFor | multicrewcore/channelprotocol.cpp:465-483 | in every run, with any number of ids: whenever packets wait for a number, a request or a reply for it is in flight |
| ChannelRuns.Drain | multicrewcore/channelprotocol.cpp:419-524 | from every state, finitely many deliveries to and from a client empty both directions |
| ChannelConservation.AllDispatched | multicrewcore/channelprotocol.cpp:419-491 | for any number of ids: after those deliveries nothing waits, and every payload sent either way has been dispatched as often, except for unsafe packets that were lost; with at most 4080 ids each packet under its id |
| ChannelDelivery.SentForm | multicrewcore/channelprotocol.cpp:282-333 | a packet for a numbered id is sent with its number only, and safe exactly if that was asked for; the first packet of an id carries it and is always safe |
| ChannelDelivery.IdleIsSilent | multicrewcore/channelprotocol.cpp:280-524 | outside a session nothing is sent, answered, dispatched or remembered |
| ChannelDelivery.HostPacketLost | multicrewcore/channelprotocol.cpp:282-307 | in every run, what the host sends next can get lost on the way to a client exactly if its id is numbered and safety was not asked for, and then just this payload is gone |
| ChannelDelivery.ClientPacketLost | multicrewcore/channelprotocol.cpp:308-332 | the same for what a client sends, if it knows the number |
| ChannelDelivery.DispatchedAsTheyCame | multicrewcore/channelprotocol.cpp:428-442 | packets that waited for a number are dispatched when it is told, in the order in which they came |
| ChannelDelivery.EverybodyLearns | multicrewcore/channelprotocol.cpp:271-524 | in every run, a client knows every id that was numbered since it joined as soon as nothing is on its way to it; up to the limit with the number of the host |
| ChannelDelivery.SenderLearns | multicrewcore/channelprotocol.cpp:492-519 | in every run, a client knows every id it has sent a packet for as soon as nothing is under way |
| ChannelDelivery.AccountsAreRight | multicrewcore/channelprotocol.cpp:271-336 | what the accounts of a client call sent, to it and by it, are the packets of the send events of the run |
| ChannelDelivery.DispatchedIsSent | multicrewcore/channelprotocol.cpp:271-524 | in every run with at most 4080 ids, once nothing is under way, a client has dispatched exactly what the host sent since it joined, under its id and as often, less some unsafe packets; and the host what the client sent |
| ChannelLimit.ShortKeyMisleads | multicrewcore/channelprotocol.cpp:420-491 | a client that knows the number left of a longer one dispatches the packet at once under the id registered for that number |
| ChannelLimit.AstrayBeyondLimit | multicrewcore/channelprotocol.cpp:271-524 | every run goes on so that a new client is sent one packet for a given id and dispatches just that packet, under the id whose number the key holds; exactly the ids numbered 4096 and above are missed, but for the empty one where the key holds no number from 16 on |
| ChannelLimit.LimitIsExact | multicrewcore/channelprotocol.cpp:46-46 | with a given number of ids, clients dispatch in every run only what was sent to them, and under its id, exactly if that number is at most 4080 |
| MetafileSteps.MetafileCompressor.Open | multicrewgauge/metafile.cpp:172-183 | ready exactly if no image waits to be sent; nothing changes |
| MetafileSteps.MetafileCompressor.Close | multicrewgauge/metafile.cpp:186-190 | an image offered is the next to be sent |
| MetafileSteps.MetafileCompressor.Receive | multicrewgauge/metafile.cpp:151-169 | a reset sets the counter to zero and an acknowledgement ends the waiting, and nothing else changes |
| MetafileSteps.MetafileCompressor.StartRound | multicrewgauge/metafile.cpp:268-315 | what a round of the thread does up to giving up the lock, with copies of counter, image and reference |
| MetafileSteps.MetafileCompressor.FinishRound | multicrewgauge/metafile.cpp:324-362 | after the lock is taken again the packet is sent only if compression succeeded and no reset has changed the counter |
| MetafileSteps.MetafileDecompressor.Receive | multicrewgauge/metafile.cpp:434-511 | a reset for the wrong counter; otherwise an acknowledgement and the image uncompressed against the own reference |
| MetafileRuns.StepKeeps | multicrewgauge/metafile.cpp:151-511 | every step, also replies during the unlocked compression, keeps the invariant about counters and references |
| MetafileRuns.AcceptedMeansSameReference | multicrewgauge/metafile.cpp:444-496 | in every run a packet with the expected counter was compressed against exactly the reference its receiver uses, and makes it show the image sent |
| MetafileRuns.ShownWasSent | multicrewgauge/metafile.cpp:496-496 | in every run the image a client shows is one of those sent to it |
| MetafileRuns.NeverBroken | multicrewgauge/metafile.cpp:300-307 | in no run, whatever the compression library does, the compressor finds a counter without a previous image |
| MetafileRuns.SentWasOffered | multicrewgauge/metafile.cpp:186-190 | every image sent was offered before |
| MetafileWaiting.AckEndsWaiting | multicrewgauge/metafile.cpp:162-290 | in every run, an acknowledgement lets the next round take up the image that waits |
| MetafileWaiting.TenRoundsWithoutReply | multicrewgauge/metafile.cpp:272-361 | in every run, without a reply the image offered after a compression is taken up in the eleventh round and not before |
| MetafileWaiting.ResetStartsAfresh | multicrewgauge/metafile.cpp:154-303 | in every run, a reset does not shorten the waiting, and what comes next has counter 0 and is compressed against 1000 zeros |
| MetafileWaiting.FirstOfferWaits | multicrewgauge/metafile.cpp:172-190 | in every run, while an image waits or is being compressed another one is turned away |
| MetafileWaiting.EachAgainstTheOneBefore | multicrewgauge/metafile.cpp:287-349 | in every run, a packet with counter 0 is made against 1000 zeros, and each other against the image sent before it, whose counter is one less in 32 bits |
| MetafileWaiting.ReplyMeans | multicrewgauge/metafile.cpp:434-511 | whatever the library makes of a packet, it is acknowledged exactly if its counter is the expected one, and moves the client on exactly if it also uncompresses |
| MetafileSettled.SettledStays | multicrewgauge/metafile.cpp:444-455 | once counters line up and no reset is in flight, no later packet mismatches while nobody joins |
| MetafileSettled.NeverMissesIffSettled | multicrewgauge/metafile.cpp:444-455 | that condition is exact: from any other reachable state some run has a mismatch |
| MetafileSettled.JoinSettled | multicrewgauge/metafile.cpp:391-412 | a new client keeps the stream settled exactly if the counter is zero |
| MetafileSettled.AfterPromptRound | multicrewgauge/metafile.cpp:265-511 | the counters on both sides after an image and all replies to it have been delivered |
| MetafileSettled.OneClientSettles | multicrewgauge/metafile.cpp:151-169 | with one client such a round settles the stream |
| MetafileDivided.OneInStep | multicrewgauge/metafile.cpp:444-455 | of two clients that what is under way leads to different counters exactly one takes the next packet sent |
| MetafileDivided.StaysApart | multicrewgauge/metafile.cpp:151-511 | in every run, with whatever is offered, sent, delivered, reset or joined, two clients come to different counters exactly if they did before and no packet sent has a counter that wraps |
| MetafileDivided.OneMissesEach | multicrewgauge/metafile.cpp:444-455 | of any packets sent in a row without a wrap, clients that come to different counters reject each exactly once between them |
| MetafileDivided.DividedForever | multicrewgauge/metafile.cpp:444-455 | while no counter wraps no run settles divided clients, and there are at least as many mismatches as packets sent since that both have received |
| MetafileDivided.LateClientDivides | multicrewgauge/metafile.cpp:405-412 | a client that joins a settled stream, with anything under way, divides it exactly if there are others and the counter is not zero |
| MetafileDivided.TogetherRecovers | multicrewgauge/metafile.cpp:151-511 | from every state in which the clients are not divided some run without joins settles the stream |
| MetafileDivided.PromptRoundSettles | multicrewgauge/metafile.cpp:151-169 | sending an image and delivering it and all replies at once settles a quiet stream exactly if it is not divided or the counter wraps |
| MetafileDivided.EveryRoundMisses | multicrewgauge/metafile.cpp:444-455 | divided clients mismatch in every one of any number of such rounds, in which no counter wraps |
| MetafileDivided.ClientsGetDivided | multicrewgauge/metafile.cpp:391-412 | a run from the start, for every image and every compression, that leaves two clients divided |
| BinaryTrees.FoundIff | RakNet/Source/BinarySearchTree.h:587-640 | descending by comparison reaches an element exactly if it is in the tree |
| BinaryTrees.InsertSorted | RakNet/Source/BinarySearchTree.h:821-899 | a leaf at the place the descent ends keeps the order and adds just its element |
| BinaryTrees.RotateLeftKeeps | RakNet/Source/BinarySearchTree.h:455-508 | a rotation keeps the elements and their order |
| BinaryTrees.RebalanceOnce | RakNet/Source/BinarySearchTree.h:307-352 | when a child grew by one, either the tree grew too and is balanced, or one single or double rotation balances it and restores its old height |
| BinaryTrees.ReplaceBalanced | RakNet/Source/BinarySearchTree.h:307-352 | with its height restored, nothing above the rotated part needs balancing |
| BinaryTrees.BalancedIsShallow | RakNet/Source/BinarySearchTree.h:307-352 | a balanced tree's height is at most twice the logarithm of its size |
| BinaryTrees.EqualChildren | RakNet/Source/BinarySearchTree.h:325-328 | with equally high children of the higher right child the rotation chosen keeps the height and balances exactly if the inner grandchild's outer child is high enough, where a single one always would |
| BinaryTrees.EqualChildrenLeft | RakNet/Source/BinarySearchTree.h:337-340 | the same for the left child |
| TreeRemovals.NodeClimbed | RakNet/Source/BinarySearchTree.h:307-352 | one node of the climb after a removal: it is left alone or rotated once, and what was to be shown then waits at its parent |
| TreeRemovals.RemovalLowers | RakNet/Source/BinarySearchTree.h:683-818 | a removal from a balanced tree lowers one balanced subtree by one, where the node that goes hung |
| TreeClimbs.FewerTurns | RakNet/Source/BinarySearchTree.h:311-344 | in a tree of any form a node is rotated at most twice before the climb goes on, and its subtree gets no higher |
| TreeClimbs.ClimbKeeps | RakNet/Source/BinarySearchTree.h:307-352 | in a tree of any form a climb from any node, to the root or to the first rotation, keeps the in-order sequence, and the tree gets no higher |
| TreeClimbs.RootSettled | RakNet/Source/BinarySearchTree.h:307-352 | in a tree of any form a climb to the root ends with a root that needs no rotation |
| TreeClimbs.AfterInsertion | RakNet/Source/BinarySearchTree.h:307-352 | after an insertion into a balanced tree a climb to the first rotation balances it, and changes nothing if it is balanced |
| TreeClimbs.AfterRemoval | RakNet/Source/BinarySearchTree.h:307-352 | after a removal from a balanced tree a climb to the root balances it exactly if no double rotation on the way misses |
| TreeClimbs.RemovalUnbalances | RakNet/Source/BinarySearchTree.h:355-370 | eight elements that the balanced form adds without a rotation, and one whose removal from it leaves the tree unbalanced |
| BinaryTrees.SkipNode | RakNet/Source/BinarySearchTree.h:704-765 | replacing a node with at most one child by that child removes just its element |
| BinaryTrees.NextUpKeeps | RakNet/Source/BinarySearchTree.h:766-817 | moving the next greater element up removes just the old one |
| BinaryTrees.PruneInsert | RakNet/Source/BinarySearchTree.h:1123-1165 | re-inserting an element whose ancestors are there, and whose descendants are not, puts it at its old place |
| BinaryTrees.InOrderAscends | RakNet/Source/BinarySearchTree.h:915-983 | the in-order sequence of a search tree ascends strictly and has exactly its elements |
| SearchTrees.BinarySearchTree.Find | RakNet/Source/BinarySearchTree.h:587-640 | the node, its parent and the side it hangs on, or where it would hang |
| SearchTrees.BinarySearchTree.FindParent | RakNet/Source/BinarySearchTree.h:643-649 | the parent found from the root, and the side |
| SearchTrees.BinarySearchTree.IsIn | RakNet/Source/BinarySearchTree.h:902-912 | true exactly for the elements |
| SearchTrees.BinarySearchTree.HeightRecursive | RakNet/Source/BinarySearchTree.h:541-558 | the height computed over the pointers is the height of the tree |
| SearchTrees.BinarySearchTree.Add | RakNet/Source/BinarySearchTree.h:821-899 | null and nothing changed for an element already there; otherwise a new leaf at the place the descent ends |
| SearchTrees.BinarySearchTree.Del | RakNet/Source/BinarySearchTree.h:683-818 | null and nothing changed for an element that is not there, and a tree of one element is emptied; otherwise just the element goes, by skipping its node or taking over the next element, and the result is the parent of the node that went |
| SearchTrees.BinarySearchTree.RotateLeft | RakNet/Source/BinarySearchTree.h:455-508 | the pointers, with the parent found by searching from the root, become those of the rotated tree |
| SearchTrees.BinarySearchTree.RotateRight | RakNet/Source/BinarySearchTree.h:391-444 | likewise to the right |
| SearchTrees.BinarySearchTree.DoubleRotateLeft | RakNet/Source/BinarySearchTree.h:511-516 | two single rotations, the inner one first |
| SearchTrees.BinarySearchTree.RotateAt | RakNet/Source/BinarySearchTree.h:311-344 | rotates exactly if the heights of the children differ by two, and then to the rebalanced tree, whose elements are the same |
| SearchTrees.BinarySearchTree.BalanceTree | RakNet/Source/BinarySearchTree.h:307-352 | for every search tree and both values of rotateOnce the climb terminates with the tree described by the climb on trees; its nodes and elements are the same and in order |
| SearchTrees.BinarySearchTree.AddBalanced | RakNet/Source/BinarySearchTree.h:355-362 | every search tree stays one, its elements are the old ones and the new one, and a balanced tree stays balanced |
| SearchTrees.BinarySearchTree.DelBalanced | RakNet/Source/BinarySearchTree.h:365-370 | every search tree stays one without just the element, or is emptied if it has one element; a balanced tree stays balanced exactly if it has at most one element, or the element is not in it, or the climb from the place of the removal meets no rotation that misses |
| SearchTrees.BinarySearchTree.DisplayInorder | RakNet/Source/BinarySearchTree.h:915-983 | terminates without a stack and fills the array with the in-order sequence, nothing behind it |
| SearchTrees.BinarySearchTree.Copy | RakNet/Source/BinarySearchTree.h:1123-1165 | a tree of new nodes with identical shape and elements; the original is as before |
| SearchTrees.BinarySearchTree.Assign | RakNet/Source/BinarySearchTree.h:1168-1219 | the same for assignment, also to itself, after the old nodes have been unlinked |
| SearchTrees.BinarySearchTree.Clear | RakNet/Source/BinarySearchTree.h:1222-1271 | descending to a leaf, unlinking it at the parent found from the root and climbing back terminates with the empty tree |
| AESTables.SubstitutionInverse | RakNet/Source/AES128.cpp:154-192 | the inverse substitution table inverts the other for every byte |
| AESTables.SubstitutionIs | RakNet/Source/AES128.cpp:63-81 | the substitution is the affine map of the inverse in the field that section 5.1.1 of FIPS 197 defines |
| AESTables.AlogStep | RakNet/Source/AES128.cpp:113-121 | each antilog table entry is the one before times 3 in the field |
| AESTables.TablesMultiply | RakNet/Source/AES128.cpp:113-121 | multiplying through the tables is multiplication in the field exactly if the first factor is not zero or the second is |
| AES.MixBack | RakNet/Source/AES128.cpp:194-232 | unmixing inverts the mixing of columns for every block |
| AES.MixedIs | RakNet/Source/AES128.cpp:194-232 | mixing a column is multiplication, in the field, with the matrix rows 2, 3, 1, 1 and for unmixing 14, 11, 13, 9 |
| AES.ShiftedAt | RakNet/Source/AES128.cpp:134-142 | shifting moves the bytes of row r by r places to the left, around the row |
| AES.DecryptEncrypt | RakNet/Source/AES128.cpp:266-298 | deciphering inverts enciphering for every block and every schedule |
| AES.EveryRoundKeyCounts | RakNet/Source/AES128.cpp:266-281 | schedules that differ inside just one of the eleven round keys encipher every block differently |
| AESCipher.AES128.SetKey | RakNet/Source/AES128.cpp:250-264 | the schedule starts with the key and obeys the recurrence up to its last word |
| AESCipher.KeyFromLastRound | RakNet/Source/AES128.cpp:250-264 | schedules that agree in the last round's four words agree in all, so expanding loses no key |
| AESCipher.ScheduleBytes | RakNet/Source/AES128.cpp:234-264 | every byte of the schedule is the sum of the byte four words before and the byte one word before, which in every fourth word is taken from the rotated and substituted word, with the round constant in the first byte |
| AESCipher.RoundConstants | RakNet/Source/AES128.cpp:103-108 | each round constant is the one before times x in the field, the first being 1 |
| AESCipher.AES128.ShiftRows | RakNet/Source/AES128.cpp:134-142 | three rotated words are the shifted rows of the row-wise state |
| AESCipher.AES128.MixColumns | RakNet/Source/AES128.cpp:194-212 | the block in place becomes its mixed columns |
| AESCipher.AES128.IMixColumns | RakNet/Source/AES128.cpp:214-232 | the block in place becomes its unmixed columns |
| AESCipher.AES128.Encrypt16 | RakNet/Source/AES128.cpp:266-281 | sixteen bytes of the buffer are enciphered under the schedule, all others stay |
| AESCipher.AES128.Decrypt16 | RakNet/Source/AES128.cpp:283-298 | sixteen bytes of the buffer are deciphered, all others stay |
| BlockChains.ChainBack | RakNet/Source/DataBlockEncryptor.cpp:112-164 | taking a chain of any length apart from the front gives the blocks chained from the back |
| BlockChains.ChainLinks | RakNet/Source/DataBlockEncryptor.cpp:112-126 | the first block is enciphered alone and every other one added to the enciphered block behind it, the last one to the first |
| BlockChains.FrameBack | RakNet/Source/DataBlockEncryptor.cpp:72-192 | a framed message has the right checksum and gives back its data for every random byte and padding |
| BlockChains.FrameLayout | RakNet/Source/DataBlockEncryptor.cpp:72-110 | checksum, random byte, pad size in a lower half byte, padding and data, in this order |
| BlockChains.FirstCheckSums | RakNet/Source/CheckSum.h:34-36 | the first bytes are masked with the upper bytes of the numbers that the three constants lead to |
| BlockChains.LastByteMatters | RakNet/Source/CheckSum.cpp:75-80 | messages that differ just in their last byte have different checksums |
| BlockChains.TamperedFrame | RakNet/Source/DataBlockEncryptor.cpp:166-184 | a frame whose checksum or last data byte was changed is refused |
| BlockChains.DecodeEncode | RakNet/Source/DataBlockEncryptor.cpp:55-193 | decrypting an encrypted message gives it back, for every schedule, length, random byte and padding |
| Encryptor.DataBlockEncryptor.EncryptBlocks | RakNet/Source/DataBlockEncryptor.cpp:112-126 | the loop over the buffer from the back leaves the chain of its blocks |
| Encryptor.DataBlockEncryptor.DecryptBlocks | RakNet/Source/DataBlockEncryptor.cpp:147-164 | the loop from the front leaves the blocks of the chain |
| Encryptor.DataBlockEncryptor.Encrypt | RakNet/Source/DataBlockEncryptor.cpp:55-127 | the output, which may be the input's buffer, holds the encrypted message; its length is a multiple of 16 and nothing behind it changes |
| Encryptor.DataBlockEncryptor.Decrypt | RakNet/Source/DataBlockEncryptor.cpp:129-193 | succeeds exactly if the length, the checksum and the pad size are right, with the message in the output, which may be the input's buffer; the input holds the deciphered frame, and all other bytes stay |
| Encryptor.CheckSum.Add | RakNet/Source/CheckSum.cpp:94-100 | adding bytes of a buffer continues the checksum over just those bytes |
| Packets.CreateBack | multicrewcore/packets.h:144-521 | for packets in packets to any depth: making a packet of its compiled bytes gives it back exactly if the format takes off its layers and all its keys are registered |
| Packets.ParsedBack | multicrewcore/packets.h:261-276 | decompiling finds the children in order, whatever follows, and leaves out just those the factory gives no packet for |
| Packets.ArrayParsed | multicrewcore/packets.h:221-276 | the compiled count and sizes lead to every child of the array |
| Packets.ChildAt | multicrewcore/packets.h:221-237 | the count comes first, and every child lies behind its size, in order and without gaps |
| Unsigned.LowestFirst | multicrewcore/packets.h:224-230 | byte i of a number in a buffer is its digit i to the base 256, the lowest first |
| Packets.KeptAll | multicrewcore/packets.h:269-272 | all children come back exactly if each of them does |
| Packets.WrappedBack | multicrewcore/packets.h:144-189 | a wrapped packet comes back exactly if its prefix has the format's size and the packet below comes back |
| Packets.TypedBack | multicrewcore/packets.h:299-361 | the same for a key, which must be registered |
| Packets.NamedBack | multicrewcore/packets.h:457-521 | the same for a terminated name |
| Packets.NameAndWrappeeBack | multicrewcore/packets.h:460-487 | name and packet below come back exactly if there is no zero in the name |
| Packets.FactoryKeepsZero | multicrewcore/packets.h:450-453 | the factory's route hands on one zero more than the packet's own, so a text below always comes out empty |
| Packets.CompiledSize | multicrewcore/packets.h:164-219 | the size of a packet of any depth is the number of its compiled bytes, modulo 2^32 |
| Packets.Compile | multicrewcore/packets.h:147-236 | writes exactly the compiled bytes of a packet of any depth at the position, and no others |
| Packets.CompileArray | multicrewcore/packets.h:221-237 | the count and every child behind its size, and nothing else is written |
| Packets.ArrayPacket.CompiledSize | multicrewcore/packets.h:211-219 | the number of bytes that compiling the array writes, modulo 2^32 |
| Packets.ArrayPacket.Compile | multicrewcore/packets.h:221-237 | writes exactly the bytes of its packets, not those still in a received buffer |
| Packets.ArrayPacket.Decompile | multicrewcore/packets.h:261-276 | the children found in the buffer are added behind the packets there already |
| Packets.ArrayPacket.Size | multicrewcore/packets.h:248-251 | the number of packets after a received buffer has been taken apart once |
| Packets.ThroughBuffer | multicrewcore/packets.h:202-276 | children appended, compiled, and counted in a packet made of the buffer are those whose format fits, so all of them exactly if each fits |
| Packets.CompiledUnread | multicrewcore/packets.h:202-237 | an array packet made of a buffer and compiled before it is looked into writes an empty array, so its buffer's bytes exactly if that was empty |

## Left out

- The assembly branches and the `Int` wrapper of `RakNet/Source/BigTypes.h`: platform code, and calls to functions the file does not define.
- `sgreater`, `sgreaterOrEqual`: they order two negative numbers the wrong way round and nothing modelled uses them.
- `usquare`, `ssquare`, signed right shifts and the bitwise operations: easy beside what is modelled.
- Float and double overloads, `IgnoreBits`, `SetWriteOffset` and the type-checking builds of the bit stream: they bypass the zero tail or add nothing.
- `Write0`, `Write1` and further writing are described for streams with a zero tail, which they rely on.
- HuffmanCodes.HuffmanIsOptimal: sums of weights that wrap a 32-bit word are excluded, because the list is then no longer sorted by what the nodes stand for.
- `FreeMemory` and the freeing of replaced nodes: objects are simply no longer referenced.
- The English frequency table of the string compressor: any table is allowed.
- StringCompression.StringCompressor.GenerateTreeFromStrings: the byte behind the input has to be readable, which the original relies on without a check.
- Channel packets keep no order, because numbers and data travel on different ordering channels; a full-state request and the dispatch of packets to the objects behind a channel are the application's.
- ChannelConservation.NothingAstray: the ids are stated while at most 4080 of them exist, which `ChannelLimit.LimitIsExact` shows to be needed for the ids; the payloads are accounted for without that limit.
- Critical sections, threads and timers: each handler is one atomic step, except that replies and offers arrive while an image is compressed.
- The delta compression library is a pair of functions, the second of which inverts the first.
- MetafileRuns.AcceptedMeansSameReference: every link is reliable and in order, as the stream's packets are sent.
- Counters wrap at 2^32 as in the original; sizes of images are not bounded.
- SearchTrees.BinarySearchTree.Assign: two trees do not share nodes, as none of the operations makes them do.
- Preorder, postorder and breadth-first display: the latter's queue is modelled in the copy, the others are easy.
- The two tree classes are one class here, and elements are integers.
- Conformance of the cipher: see above.  Key bytes and messages are not kept secret by any proof here.
- Encryptor.DataBlockEncryptor.Encrypt: random bytes are arguments; the message may also be empty, which the original asserts it is not.
- Encryptor.DataBlockEncryptor.Decrypt: a pad size beyond the message, with a checksum that fits by chance, makes the original copy a negative length; here it fails.
- Numbers lie in memory lowest byte first.
- Packets.Compile: buffers are smaller than 2^32 bytes, so positions do not wrap; children are made when an array is taken apart and not on demand.
- Packets.ArrayPacket.Decompile: sizes that lead out of the buffer are excluded, since the original reads beyond it; inside a child they count as no packet.
- Packets.ArrayPacket.Size: likewise, for a received buffer.
- Position extrapolation, configuration files, the distributed-object manager, the simulator interface and the user interface: floating point, raw memory or plumbing.
