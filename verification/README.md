# Zinc: codecs, connection bookkeeping and hash cores

Zinc is a Minecraft server core. This project models, in Dafny, the parts of it that other code relies on
to be exact:

- the block buffer under every codec, and the primitive codecs on it (fixed-width numbers, variable-length
  numbers as in section 7.6 of DWARF Version 5, ZigZag, strings, arrays);
- NBT encoding and decoding, slot and recipe displays, bit sets, light data and chunk data;
- packet frames with and without compression;
- the bookkeeping of the server over runs: who is connected, how many per address, how many online, who is
  rate limited;
- the messenger bridge;
- CRC-32 (section 8 of RFC 1952), streaming SHA-1 (sections 5.1.1 and 6.1.2 of FIPS 180-4) and the signed
  hexadecimal form of a digest.

Code that changes state is a class or a method over a buffer, tied by its contract to a specification
function; the theorems are about those functions. Bytes are the integers 0 to 255, words that are taken apart
bit by bit are bit vectors. `dafny verify dfyconfig.toml` checks everything.

| module | content |
|---|---|
| Bytes, Numeric, VarNumeric, Arrays, NumberBytes | specification of the primitive codecs, and where each of their bytes stands |
| WordNumbers, ZigZags | machine words as numbers, and the ZigZag expressions on them |
| BlockBuffer, Buffers | `InternalByteBuffer` and `ByteBuffer` |
| Nbt, NbtBytes, NbtRoundTrip, NbtLittleEndianNetwork, NbtLittleEndianLists, NbtCodec | the NBT format, its bytes by type, its theorems, and `encode`/`decode` step by step |
| Displays, Recipes, DisplayBytes, DisplayCodec | the two display registries, their bytes by type, their theorems, and the readers and writers step by step |
| Bits, WordSets, BitSets | bits of a word, arrays of words as sets, and `BitSet` |
| WorldData, WorldBytes, WorldCodec | light and chunk data: theorems, their bytes, and the readers and writers step by step |
| ConnectionState, Framing, FramePrefixes | states and frames of a connection, and frames that have not arrived completely |
| ServerBook, ZincServers | the bookkeeping as steps over runs, and the server object that takes those steps |
| Messenger | the bridge as steps over runs, and the object |
| Crc32, Sha1, Sha1Example, JavaDigest | checksums and digests, with the published examples of both |

## Model

| member | source | states |
|---|---|---|
| BlockBuffer.InternalByteBuffer.constructor | src/type/ByteBuffer.cpp:7-9 | a new buffer is empty and consistent |
| BlockBuffer.InternalByteBuffer.Clear | src/type/ByteBuffer.cpp:13-21 | clearing forgets everything written and read, and keeps the recycling switch |
| BlockBuffer.InternalByteBuffer.Write | src/type/ByteBuffer.cpp:22-40 | whatever the length and the fill of the current block, the bytes are appended to the flat contents and the reader does not move |
| BlockBuffer.InternalByteBuffer.Read | src/type/ByteBuffer.cpp:41-73 | a read gives the next stored bytes, and fewer where the blocks end, with recycling on or off; as long as it stays within the written bytes those are exactly the unread ones |
| BlockBuffer.InternalByteBuffer.StoredBytes | src/type/ByteBuffer.cpp:41-73 | what is stored behind the read cursor is what is unread, then the zeros of the last block |
| BlockBuffer.InternalByteBuffer.ToggleBlockRecycle | src/type/ByteBuffer.cpp:80-82 | the switch changes nothing that is stored |
| BlockBuffer.InternalByteBuffer.GetBytes | src/type/ByteBuffer.cpp:83-106 | the result has `size()` bytes, they are the written ones that were not recycled, and from the read pointer on they are the unread ones |
| BlockBuffer.InternalByteBuffer.SetReader | src/type/ByteBuffer.cpp:113-116 | the cursor moves anywhere; the buffer stays consistent if and only if that is a position among the stored bytes |
| BlockBuffer.FlatBlock | src/type/ByteBuffer.cpp:22-73 | block number and offset address the flat contents at 4096 times the number plus the offset |
| BlockBuffer.HoldsAfterFillUp | src/type/ByteBuffer.cpp:27-38 | opening a block when the current one is full keeps the blocks equal to the flat contents |
| BlockBuffer.HoldsAfterRecycle | src/type/ByteBuffer.cpp:62-70 | dropping the front block and moving both cursors back keeps what is unread |
| BlockBuffer.QueueConserves | src/type/ByteBuffer.cpp:22-106 | on the reference queue, over any run, bytes read so far followed by bytes unread are all bytes written |
| BlockBuffer.Apply | src/type/ByteBuffer.cpp:22-82 | each operation on the block buffer is the operation of the queue |
| BlockBuffer.Replay | src/type/ByteBuffer.cpp:22-106 | over any interleaving of writes, in-bounds reads and recycle toggles the block buffer gives the outputs of the queue, and reads followed by unread bytes are all bytes written |
| Numeric.NumRoundTrip | inc/type/ByteBuffer.h:129-147 | a fixed-width number survives writing and reading in either byte order and any width, with exact consumption |
| Numeric.NumReadBack | inc/type/ByteBuffer.h:129-147 | writing a number that was read gives the bytes it was read from |
| Numeric.SignedRoundTrip | inc/type/ByteBuffer.h:129-147 | every signed 16-, 32- and 64-bit value survives in either byte order |
| NumberBytes.NumByteAt | inc/type/ByteBuffer.h:129-137 | at every width, byte `i` of a big-endian number is the digit to base 256 that weighs 256 to the number of bytes behind it, and byte `i` of a little-endian one weighs 256 to the `i` |
| NumberBytes.Int16Bytes | inc/type/ByteBuffer.h:129-137 | the two bytes of a `short`, in two's complement, in both orders |
| NumberBytes.Int32Bytes | inc/type/ByteBuffer.h:129-137 | the four bytes of an `int` in both orders |
| NumberBytes.Int64Bytes | inc/type/ByteBuffer.h:129-137 | the eight bytes of a `long` in both orders |
| VarNumeric.VarRoundTrip | inc/type/ByteBuffer.h:164-200 | reading a written variable-length number gives it back and leaves what follows, for every width |
| VarNumeric.VarBytesBound | inc/type/ByteBuffer.h:154-172 | at most 5 bytes for 32 bits and 10 for 64: the writer's local array never overflows |
| VarNumeric.VarBytesMinimal | inc/type/ByteBuffer.h:157-200 | no byte string that reads as a value is shorter than its written form |
| VarNumeric.DecVarStep | inc/type/ByteBuffer.h:179-197 | one turn of the read loop keeps the accumulated value below the bits seen so far, stops at a clear top bit, and gives zero past the width |
| VarNumeric.VarIntRoundTrip | inc/type/ByteBuffer.h:164-200 | every `int`, negative ones included, survives with exact consumption |
| NumberBytes.VarIntBytes | inc/type/ByteBuffer.h:164-172 | byte `i` holds bits `7 * i` to `7 * i + 6` of the 32 bits, its top bit is set unless it is the last, and there are no more bytes than the value needs |
| NumberBytes.ReadsGroups | inc/type/ByteBuffer.h:173-200 | any number of no more bytes than its width can need, minimal or not, reads as its groups of seven bits modulo two to the width |
| NumberBytes.ReadsTooLong | inc/type/ByteBuffer.h:190-195 | bytes with their top bits set that fill the width read as zero, and leave what follows |
| ZigZags.ZigZag32Inverse | inc/type/ByteBuffer.h:206-215 | the shift-and-xor expressions undo each other on all 32-bit words, in both directions |
| ZigZags.ZigZag64Inverse | inc/type/ByteBuffer.h:206-215 | the same on all 64-bit words |
| ZigZags.ZigZag32Arithmetic | inc/type/ByteBuffer.h:206-208 | below the sign bit the expression doubles the word; above, it doubles the complement and adds one |
| ZigZags.ZigZag64Arithmetic | inc/type/ByteBuffer.h:206-208 | the same for 64 bits |
| ZigZags.ZigZag32Meaning | inc/type/ByteBuffer.h:206-215 | on the numbers that 32-bit words stand for, the expressions are ZigZag and its inverse |
| ZigZags.ZigZag64Meaning | inc/type/ByteBuffer.h:206-215 | the same for 64 bits |
| VarNumeric.ZigZagBijection | inc/type/ByteBuffer.h:206-215 | those numbers are in bijection: the signed ones of a width with the unsigned ones of that width |
| VarNumeric.ZigZagRoundTrip | inc/type/ByteBuffer.h:206-215 | every signed value of the width survives its ZigZag form with exact consumption |
| VarNumeric.ZigZag32RoundTrip | inc/type/ByteBuffer.h:206-215 | the same for every 32-bit value |
| VarNumeric.ZigZag64RoundTrip | inc/type/ByteBuffer.h:206-215 | the same for every 64-bit value |
| Arrays.ArrayRoundTrip | inc/type/ByteBuffer.h:263-286 | an array survives whenever each of its elements does |
| Arrays.PrefixedArrayRoundTrip | inc/type/ByteBuffer.h:269-292 | an array with its count in front survives, up to 2^31 elements |
| Arrays.StringRoundTrip | src/type/ByteBuffer.cpp:166-173 | a string of less than 2^31 bytes survives with exact consumption |
| Arrays.ShortStringRoundTrip | src/type/nbt/NBTElement.cpp:21-22 | a text of less than 2^16 bytes with a 16-bit length survives in either byte order |
| NumberBytes.SizeIsCongruent | src/type/ByteBuffer.cpp:166-169 | a size cast to `int` is congruent to it modulo 2^32, and the same if and only if it is below 2^31 |
| NumberBytes.TextBytes | src/type/ByteBuffer.cpp:166-169 | a string is the variable-length form of its size and its bytes |
| NumberBytes.ShortTextBytes | src/type/nbt/NBTElement.cpp:21-22 | a short text is its size in two bytes, high byte first exactly in big-endian buffers, and its bytes |
| NumberBytes.OneMoreElement | inc/type/ByteBuffer.h:263-265 | an array with one more element at its end has the bytes of that element at its end |
| NumberBytes.CountInFront | inc/type/ByteBuffer.h:269-272 | a counted array is the variable-length form of its size and the array |
| Buffers.ByteBuffer.constructor | inc/type/ByteBuffer.h:100-101 | a new buffer is empty and has the chosen byte order |
| Buffers.ByteBuffer.Of | inc/type/ByteBuffer.h:102-113 | a buffer made from bytes has the bytes from the read pointer on unread, and behind them the zeros of its last block; it is consistent if and only if the pointer is within the bytes |
| Buffers.ByteBuffer.GetBytes | src/type/ByteBuffer.cpp:133-143 | size, bytes and read pointer agree with what is unread |
| Buffers.ByteBuffer.ReadStored | src/type/ByteBuffer.cpp:148-150 | the next stored bytes are delivered, padding included, and fewer where the blocks end |
| Buffers.ByteBuffer.ReadStoredVarNumeric | inc/type/ByteBuffer.h:173-200 | the read loop delivers what the specification parser makes of the stored bytes, padding included |
| Buffers.ByteBuffer.ReadBytes | src/type/ByteBuffer.cpp:148-150 | the next bytes are delivered when as many were written; for the codecs that stay within the written bytes |
| Buffers.ByteBuffer.WriteNumeric | inc/type/ByteBuffer.h:129-137 | appends the memory image of the value in the byte order of the buffer |
| Buffers.ByteBuffer.ReadNumeric | inc/type/ByteBuffer.h:138-147 | delivers what the specification parser makes of the unread bytes, and consumes exactly that |
| Buffers.ByteBuffer.GetVarNumericLength | inc/type/ByteBuffer.h:157-163 | the loop counts exactly the bytes that are written |
| Buffers.ByteBuffer.GatherVarBytes | inc/type/ByteBuffer.h:165-170 | setting every top bit and clearing the last one gives the specified bytes |
| Buffers.ByteBuffer.ReadVarNumeric | inc/type/ByteBuffer.h:173-200 | the read loop delivers what the specification parser makes of the unread bytes, overflow included |
| Buffers.ByteBuffer.ReadVarInt | inc/type/ByteBuffer.h:173-200 | the same for a signed 32-bit number |
| Buffers.ByteBuffer.WriteZigZagInt | inc/type/ByteBuffer.h:206-210 | the shift-and-xor expression on the word of an `int` appends its ZigZag form |
| Buffers.ByteBuffer.WriteZigZagLong | inc/type/ByteBuffer.h:206-210 | the same for a `long` |
| Buffers.ByteBuffer.ReadZigZagInt | inc/type/ByteBuffer.h:211-215 | the shift-and-xor expression on the word that was read gives the `int` whose ZigZag form was unread |
| Buffers.ByteBuffer.ReadZigZagLong | inc/type/ByteBuffer.h:211-215 | the same for a `long` |
| Buffers.ByteBuffer.WriteString | src/type/ByteBuffer.cpp:166-169 | appends length and bytes |
| Buffers.ByteBuffer.ReadString | src/type/ByteBuffer.cpp:170-173 | delivers the text whose length is in front, or no value when it is negative or not all there |
| Buffers.ByteBuffer.WriteInt64Array | inc/type/ByteBuffer.h:263-265 | the loop appends all elements in order |
| Buffers.ByteBuffer.ReadInt64Array | inc/type/ByteBuffer.h:277-281 | the loop delivers as many elements as asked for, in order, or no value |
| Nbt.DecElement | src/type/nbt/NBTElement.cpp:157-291 | decoding ends on every byte string, never moves backwards, and a root consumes at least one byte |
| Nbt.DecItems | src/type/nbt/NBTElement.cpp:264-269 | a list of any claimed length ends, with exactly that many items or no value |
| Nbt.DecChildren | src/type/nbt/NBTElement.cpp:277-286 | the loop over the children of a compound ends on every byte string |
| NbtRoundTrip.CountRoundTrip | src/type/nbt/NBTElement.cpp:65-69 | every count below 2^32 survives in all four modes, though one of them casts it to a signed number |
| NbtRoundTrip.TagRoundTrip | src/type/nbt/NBTElement.cpp:18-30 | tags survive where encoding and decoding agree on the header |
| NbtRoundTrip.ScalarRoundTrip | src/type/nbt/NBTElement.cpp:31-63 | every scalar payload survives in all four modes |
| NbtRoundTrip.ArrayLeafRoundTrip | src/type/nbt/NBTElement.cpp:64-90 | byte, int and long arrays survive in all four modes |
| NbtRoundTrip.ElementRoundTrip | src/type/nbt/NBTElement.cpp:14-291 | at any depth, an element with or without a header of its own survives with exact consumption, up to the tags that are not written |
| NbtRoundTrip.PayloadRoundTrip | src/type/nbt/NBTElement.cpp:31-289 | the same for a payload of a known type |
| NbtRoundTrip.ListRoundTrip | src/type/nbt/NBTElement.cpp:91-128 | lists survive with their items in order; item tags are erased |
| NbtRoundTrip.ChildrenRoundTrip | src/type/nbt/NBTElement.cpp:141-153 | children survive up to the terminating zero, which no child is ever taken for |
| NbtRoundTrip.DecodedElement | src/type/nbt/NBTElement.cpp:157-291 | whatever decoding returns, on any bytes, is well-formed and has no tag where none is written |
| NbtRoundTrip.RoundTripExactlyWhenWellFormed | src/type/nbt/NBTElement.cpp:14-291 | in the three agreeing modes and for any trailing bytes, decoding an encoding gives the tree back and leaves the trailing bytes, if and only if the tree is well-formed |
| NbtRoundTrip.EncodingsPrefixFree | src/type/nbt/NBTElement.cpp:14-156 | encodings of well-formed roots are injective and prefix-free |
| NbtRoundTrip.ReencodingIsStable | src/type/nbt/NBTElement.cpp:9-291 | an element decoded from any bytes is a fixed point of encoding and decoding |
| NbtBytes.ElementBytes | src/type/nbt/NBTElement.cpp:14-30 | the first byte of a root or child of each of the thirteen types is 0 for end, 1 byte, 2 short, 3 int, 4 long, 5 float, 6 double, 7 byte array, 8 string, 9 list, 10 compound, 11 int array, 12 long array; tag and payload follow |
| NbtBytes.ScalarPayloads | src/type/nbt/NBTElement.cpp:32-63 | the bytes of every number, in all four modes |
| NbtBytes.TextPayload | src/type/nbt/NBTElement.cpp:129-140 | the bytes of a string in all four modes |
| NbtBytes.ArrayPayloads | src/type/nbt/NBTElement.cpp:64-90 | an array is its count, in four bytes or as twice the count, and its elements |
| NbtBytes.ArrayElements | src/type/nbt/NBTElement.cpp:80-90 | the elements of int and long arrays follow each other in order |
| NbtBytes.EmptyOrMixedListPayload | src/type/nbt/NBTElement.cpp:92-110 | an empty list and one with items of two types are five zero bytes, two in little-endian network mode |
| NbtBytes.ListPayload | src/type/nbt/NBTElement.cpp:111-125 | any other list is the number of the type of its items, one of the thirteen above, the count, and the payloads of the items in order and in file mode |
| NbtBytes.CompoundPayload | src/type/nbt/NBTElement.cpp:141-153 | a compound is its children in order, each as in file mode, and a zero byte |
| NbtBytes.FirstByteDecides | src/type/nbt/NBTElement.cpp:157-173 | whatever bytes are read as a root, the first of them decides the type by the same numbers |
| NbtBytes.ListTypeDecides | src/type/nbt/NBTElement.cpp:254-270 | the first byte of a list decides the type of all its items; a list of type 0 is empty whatever its count |
| NbtBytes.UnterminatedCompound | src/type/nbt/NBTElement.cpp:277-286 | a compound that ends without its zero byte has the children that are there |
| NbtLittleEndianNetwork.LittleEndianNetworkLeaf | src/type/nbt/NBTElement.cpp:14-291 | in the fourth mode, roots without children survive |
| NbtLittleEndianNetwork.LittleEndianNetworkFixedWidthList | src/type/nbt/NBTElement.cpp:111-125 | in the fourth mode, lists of bytes, shorts, floats and doubles survive |
| NbtLittleEndianNetwork.LittleEndianNetworkCompound | src/type/nbt/NBTElement.cpp:141-153 | in the fourth mode, a compound survives if and only if it has no children, given a first tag shorter than 2^15: children are written in file mode and read in network mode |
| NbtLittleEndianNetwork.PayloadReadEarly | src/type/nbt/NBTElement.cpp:173-289 | a payload of any type that is read one byte early and still comes out right leaves a zero that ends the compound too soon |
| NbtLittleEndianNetwork.LittleEndianNetworkContainerFails | src/type/nbt/NBTElement.cpp:142-150 | a concrete compound with one child that does not come back: its bytes are read as other children, and run out within the second |
| NbtLittleEndianLists.LittleEndianNetworkListFails | src/type/nbt/NBTElement.cpp:111-125 | in the fourth mode no list of texts, arrays or lists survives, whatever the items, given a first item whose length is in the range of both modes |
| NbtLittleEndianLists.CountReadAsZigZag | src/type/nbt/NBTElement.cpp:206-213 | a fixed-width count that reads as the same ZigZag count is zero |
| NbtLittleEndianLists.ItemsBehindZeros | src/type/nbt/NBTElement.cpp:264-269 | items read behind left-over zeros, all of them right, leave more than what followed them |
| NbtCodec.EncodeElement | src/type/nbt/NBTElement.cpp:14-156 | the encoder appends exactly the specified bytes, for every tree and mode |
| NbtCodec.EncodeList | src/type/nbt/NBTElement.cpp:91-127 | empty and mixed lists are both written as an empty list |
| NbtCodec.EncodeItems | src/type/nbt/NBTElement.cpp:121-150 | the loops over items and children append them in order |
| NbtCodec.DecodeElement | src/type/nbt/NBTElement.cpp:157-291 | the decoder delivers what the specification parser makes of the unread bytes, ends on every buffer, and only moves forward |
| NbtCodec.DecodePayload | src/type/nbt/NBTElement.cpp:173-290 | the same for each payload type |
| NbtCodec.DecodeItems | src/type/nbt/NBTElement.cpp:264-269 | the loop over list items |
| NbtCodec.DecodeChildren | src/type/nbt/NBTElement.cpp:277-286 | the loop that looks at the next byte of the stored bytes to find the end of a compound |
| NbtCodec.Encode | src/type/nbt/NBTElement.cpp:9-13 | the bytes of an element with its settings in a fresh big-endian buffer |
| NbtCodec.WriteNBTElement | src/type/ByteBuffer.cpp:309-315 | writes a network root |
| NbtCodec.ReadNBTElement | src/type/ByteBuffer.cpp:316-320 | reads a network root |
| Displays.IdentifierRoundTrip | src/type/Identifier.cpp:6-15 | the text of an identifier survives parsing; its parts do exactly when the namespace has no colon |
| Displays.GetIdentifierFromValue | inc/registry/DefaultRegistries.h:31-34 | the search finds a type with the number, or gives the default, in whatever order the map is walked |
| Displays.SlotIds | src/registry/DefaultRegistries.cpp:3318-3321 | slot display types and numbers correspond one to one, so every search gives the same type; unknown numbers are the empty display |
| Displays.RecipeIds | src/registry/DefaultRegistries.cpp:3218-3221 | recipe display types and numbers correspond one to one; unknown numbers are shapeless recipes |
| Displays.DecSlot | src/type/ByteBuffer.cpp:367-377 | reading a display ends on every byte string and consumes at least one byte |
| Displays.SlotRoundTrip | src/registry/DefaultRegistries.cpp:3318-3397 | for every display tree without item stacks, reading its bytes consumes exactly those and gives the repaired tree |
| Displays.RewriteSame | src/type/Recipe.cpp:7-18 | writing the repaired tree gives the same bytes, so the two compare equal |
| Displays.ItemStackIsNotReadBack | src/registry/DefaultRegistries.cpp:3376-3376 | for every item stack display the reader leaves exactly the stack's bytes unread |
| DisplayBytes.SlotBytes | src/registry/DefaultRegistries.cpp:3318-3367 | the bytes of each of the eight types behind its number 0 to 7, with the empty displays that stand for wrong numbers of children |
| DisplayBytes.UnknownSlotIsEmpty | src/type/ByteBuffer.cpp:367-377 | a number outside 0 to 7 is read as the empty display and nothing more is read |
| DisplayBytes.PlaceholderText | inc/type/Identifier.h:12-12 | what a reader does not set: the tag `minecraft:placeholder`, no children, an empty stack |
| Recipes.RecipeRoundTrip | src/registry/DefaultRegistries.cpp:3218-3317 | reading a recipe's bytes consumes exactly those; the repaired recipe comes back if and only if the buffer is big-endian, or the type has no experience, or its bits are a palindrome |
| Recipes.RewriteRecipeSame | src/type/Recipe.cpp:26-41 | writing the repaired recipe gives the same bytes |
| DisplayBytes.RecipeBytes | src/registry/DefaultRegistries.cpp:3218-3273 | the bytes of each of the five types behind its number 0 to 4, field by field |
| DisplayBytes.UnknownRecipeIsShapeless | src/type/ByteBuffer.cpp:382-396 | a number outside 0 to 4 is read as that of a shapeless recipe |
| DisplayCodec.WriteSlotDisplay | src/type/ByteBuffer.cpp:364-366 | appends exactly the specified bytes |
| DisplayCodec.SlotToBytes | src/type/Recipe.cpp:7-18 | nested buffers of their own give exactly the specified bytes |
| DisplayCodec.SlotBodyToBytes | src/registry/DefaultRegistries.cpp:3322-3367 | each registered writer, with wrong child counts replaced by empty displays |
| DisplayCodec.WriteSlots | inc/type/ByteBuffer.h:263-265 | the loop appends all displays in order |
| DisplayCodec.ReadSlotDisplay | src/type/ByteBuffer.cpp:367-377 | delivers what the specification parser makes of the unread bytes, and ends on every buffer |
| DisplayCodec.ReadSlotBody | src/registry/DefaultRegistries.cpp:3369-3396 | each registered reader |
| DisplayCodec.ReadIdentifier | src/type/ByteBuffer.cpp:177-179 | delivers an identifier, or no value when the text has no colon |
| DisplayCodec.RecipeToBytes | src/type/Recipe.cpp:26-41 | gives exactly the specified bytes |
| DisplayCodec.RecipeBodyToBytes | src/registry/DefaultRegistries.cpp:3222-3273 | each registered recipe writer, with wrong ingredient counts replaced by empty displays |
| DisplayCodec.ReadRecipeDisplay | src/type/ByteBuffer.cpp:382-396 | delivers what the specification parser makes of the unread bytes |
| DisplayCodec.ReadRecipeBody | src/registry/DefaultRegistries.cpp:3275-3316 | each registered recipe reader |
| Bits.BitOfMask | src/type/BitSet.cpp:16-16 | a shifted one is exactly that bit |
| Bits.BitShiftRight | src/type/BitSet.cpp:62-62 | shifting right drops the low bits and no others |
| Bits.BitBelow | src/type/BitSet.cpp:74-74 | a mask minus one is exactly the bits below it |
| Bits.WordIsItsBits | src/type/BitSet.cpp:109-114 | words with the same bits are equal |
| WordSets.LastWordGivesMaximum | src/type/BitSet.cpp:6-11 | the leading zeros of the last word that is not zero give the maximum of the set |
| WordSets.FindHighestSet | src/type/BitSet.cpp:6-11 | the backward loop returns the maximum, or `NPOS` for the empty set |
| WordSets.FoundInWord | src/type/BitSet.cpp:60-64 | the trailing zeros of the shifted word give the next member |
| WordSets.GapInWord | src/type/BitSet.cpp:73-76 | the trailing zeros of the masked complement give the next gap |
| WordSets.CountInWord | src/type/BitSet.cpp:45-47 | the population count of a word is the number of members it adds |
| WordSets.IterationListsMembers | src/type/BitSet.cpp:56-69 | any completed chain of scans from 0 lists every member once, in increasing order, in as many steps as there are members |
| WordSets.LongArrayRoundTrip | src/type/BitSet.cpp:119-122 | the long array stands for the same set |
| WordSets.LongArrayIsCanonical | src/type/BitSet.cpp:119-122 | equal sets give equal long arrays, whatever their word arrays |
| WordSets.ByteRoundTrip | src/type/BitSet.cpp:123-154 | the byte array stands for the same set if and only if it is empty or its highest index is not a multiple of 8; otherwise the highest element is lost and nothing else |
| BitSets.BitSet.constructor | inc/type/BitSet.h:14-14 | a new set is empty |
| BitSets.BitSet.WithCapacity | inc/type/BitSet.h:15-15 | a new set with room for n positions is empty |
| BitSets.BitSet.Set | src/type/BitSet.cpp:13-19 | adds the position, growing the words when needed, and keeps the cached maximum right |
| BitSets.BitSet.Clear | src/type/BitSet.cpp:20-26 | removes the position and keeps the cached maximum right |
| BitSets.BitSet.Flip | src/type/BitSet.cpp:27-35 | adds or removes the position and keeps the cached maximum right |
| BitSets.BitSet.Get | src/type/BitSet.cpp:36-39 | membership, beyond the words too |
| BitSets.BitSet.Size | src/type/BitSet.cpp:40-42 | one more than the maximum, 0 for the empty set |
| BitSets.BitSet.Any | src/type/BitSet.cpp:50-51 | whether the set is not empty |
| BitSets.BitSet.Count | src/type/BitSet.cpp:43-49 | the cardinality |
| BitSets.BitSet.AndNot | src/type/BitSet.cpp:52-55 | set difference, also with itself |
| BitSets.BitSet.AndWith | src/type/BitSet.cpp:82-90 | intersection, whatever the lengths of the word arrays |
| BitSets.BitSet.OrWith | src/type/BitSet.cpp:91-99 | union |
| BitSets.BitSet.XorWith | src/type/BitSet.cpp:100-108 | symmetric difference, also with itself |
| BitSets.BitSet.Equals | src/type/BitSet.cpp:109-117 | equality of the sets, whatever the lengths of the word arrays |
| BitSets.BitSet.NextSetBit | src/type/BitSet.cpp:56-69 | the least member from the position on, or `NPOS` |
| BitSets.BitSet.Iterate | src/type/BitSet.cpp:56-69 | scanning on from one past the previous member ends, and lists every member once, in increasing order, in as many steps as there are members |
| BitSets.BitSet.NextClearBit | src/type/BitSet.cpp:70-80 | the least position not in the set, if and only if the scan starts no later than the end of the words; otherwise the end of the words |
| BitSets.BitSet.ToLongArray | src/type/BitSet.cpp:119-122 | the words up to the one with the maximum |
| BitSets.BitSet.FromLongArray | src/type/BitSet.cpp:135-140 | a consistent set with exactly those words |
| BitSets.BitSet.ToByteArray | src/type/BitSet.cpp:123-134 | the bits of the set, least significant first, as far as the bytes reach |
| BitSets.BitSet.FromByteArray | src/type/BitSet.cpp:141-154 | exactly the set that the bytes stand for, for every byte array |
| WorldData.TrimIsLongs | src/type/BitSet.cpp:119-122 | cutting at the cached maximum is cutting the zero words at the end |
| WorldData.BitSetRoundTrip | src/type/ByteBuffer.cpp:289-294 | a bit set survives in either byte order with exact consumption, without zero words at the end |
| WorldBytes.MaskValues | src/type/BitSet.cpp:16-16 | the masks of the bits of a word as numbers |
| WorldBytes.BitSetBytes | src/type/ByteBuffer.cpp:289-291 | behind the number of words, position `p` is in the set if and only if bit `p % 8` of a byte is set: byte `p / 8`, counted within each word from its low end, which stands last in big-endian buffers |
| WorldBytes.BitSetIsShort | src/type/BitSet.cpp:119-122 | the words reach to the one with the maximum and no further |
| WorldBytes.OctetBits | src/type/BitSet.cpp:123-134 | in a fixed bit set position `p` is bit `p % 8` of byte `p / 8` |
| WorldData.LightRoundTrip | src/type/LightData.cpp:6-15 | light data are read with exact consumption in either byte order and give the same arrays; each mask has the same members if and only if the buffer is big-endian, as the writer's is, or every kept word of the mask is a byte palindrome |
| WorldBytes.LightBytes | src/type/LightData.cpp:6-15 | sky mask, block mask, empty sky mask, empty block mask, sky arrays, block arrays, in this order, all high byte first |
| WorldData.BlockEntityRoundTrip | src/type/ByteBuffer.cpp:555-560 | a block entity survives, its coordinates modulo 16 |
| WorldData.HeightMapsRoundTrip | src/type/ByteBuffer.cpp:548-552 | height maps survive in either byte order |
| WorldData.ChunkRoundTrip | src/type/ByteBuffer.cpp:547-583 | chunk data survive a big-endian buffer with exact consumption; all block entities keep their places if and only if all coordinates are below 16 |
| WorldBytes.BlockEntityBytes | src/type/ByteBuffer.cpp:555-560 | the high four bits of the first byte are the low four of `x`, its low four those of `z`; height, type and data follow |
| WorldBytes.HeightMapBytes | src/type/ByteBuffer.cpp:549-552 | type, number of words, words |
| WorldBytes.ChunkBytes | src/type/ByteBuffer.cpp:547-561 | counted height maps, counted data, counted block entities |
| WorldBytes.NegativeCountReadsNothing | src/type/ByteBuffer.cpp:564-565 | a negative count of height maps or block entities reads as none |
| WorldCodec.WriteBitSet | src/type/ByteBuffer.cpp:289-291 | appends exactly the specified bytes |
| WorldCodec.ReadBitSet | src/type/ByteBuffer.cpp:292-294 | delivers a consistent bit set with the words read |
| WorldCodec.WriteFixedBitSet | src/type/ByteBuffer.cpp:295-297 | appends the byte array of the set |
| WorldCodec.ReadFixedBitSet | src/type/ByteBuffer.cpp:298-300 | delivers the set that the bytes stand for, or no value when there are fewer |
| WorldCodec.FixedBitSetRoundTrip | src/type/ByteBuffer.cpp:295-300 | a fixed bit set written and read back is the same set if and only if it is empty or its highest index is not a multiple of 8 |
| WorldCodec.LightToBytes | src/type/LightData.cpp:6-15 | gives exactly the specified bytes |
| WorldCodec.WriteLightData | src/type/ByteBuffer.cpp:533-535 | appends exactly those bytes, whatever the byte order of the buffer |
| WorldCodec.ReadLightData | src/type/ByteBuffer.cpp:536-545 | delivers fresh, consistent masks and the arrays that the specification parser makes of the unread bytes |
| WorldCodec.WriteChunkData | src/type/ByteBuffer.cpp:547-561 | appends exactly the specified bytes |
| WorldCodec.ReadChunkData | src/type/ByteBuffer.cpp:562-583 | delivers what the specification parser makes of the unread bytes; negative counts read nothing |
| ConnectionState.HandshakeTarget | src/network/minecraft/ZincServer.cpp:109-112 | a handshake leads to status, login or transfer and nowhere else |
| Framing.FrameRoundTrip | src/network/minecraft/ZincConnection.cpp:74-151 | whichever of the three layouts a packet was sent in, reading gives the packet and drains exactly its frame |
| Framing.FramesRoundTrip | src/network/minecraft/ZincConnection.cpp:74-151 | the frames of any packets, sent with one compression setting, are read back in order |
| Framing.FrameLayouts | src/network/minecraft/ZincConnection.cpp:124-144 | without compression a frame is the counted body; with compression, a body that reaches the threshold stands compressed behind its size, and a shorter one as it is behind a zero byte |
| Framing.NegativeLengthWaits | src/network/minecraft/ZincConnection.cpp:87-93 | a negative length is taken for a huge one: the read waits |
| Framing.ReadDrainsTheFrame | src/network/minecraft/ZincConnection.cpp:87-93 | on every stream the read waits if and only if the length is negative or exceeds what has arrived, and otherwise drains the length and that many bytes, packet or not |
| FramePrefixes.CutFrame | src/network/minecraft/ZincConnection.cpp:87-93 | whatever the layout, the read of an incomplete frame waits if and only if the length it sees exceeds everything that has arrived; otherwise it takes what has arrived, followed by zeros, for the content |
| FramePrefixes.CutFrameIsPacketExactlyWhenZeros | src/network/minecraft/ZincConnection.cpp:87-113 | in the layouts without compression, an incomplete frame whose length has arrived and is no more than what has arrived gives a packet and is drained; for any prefix, the packet is the one sent if and only if that is so, all missing bytes are zeros and the block has as many left |
| FramePrefixes.CutInLength | src/network/minecraft/ZincConnection.cpp:87-110 | when the length itself has not arrived completely, the packet taken is of zeros alone, or the code throws |
| FramePrefixes.CutBody | src/network/minecraft/ZincConnection.cpp:105-110 | a body of which some bytes arrived always reads as a packet; when its id has arrived, that packet has the id and the data that arrived, followed by zeros |
| FramePrefixes.CutNumber | inc/type/ByteBuffer.h:173-200 | a variable-length number cut short by a zero reads as its low bits |
| Framing.ZincConnection.constructor | inc/network/minecraft/ZincConnection.h:52-65 | the state of a new connection |
| Framing.ZincConnection.Send | src/network/minecraft/ZincConnection.cpp:115-151 | appends exactly the frame of the packet to what was sent: with compression on, compressed if and only if the body reaches the threshold |
| Framing.ZincConnection.SetupCompression | src/network/minecraft/ZincConnection.cpp:59-66 | in login only: announces the threshold in the old layout, then switches |
| Framing.ZincConnection.Read | src/network/minecraft/ZincConnection.cpp:74-114 | on every stream, complete or not: waits, gives a packet read from what has arrived and the zeros behind, or throws, and drains what the specification says |
| Framing.Relay | src/network/minecraft/ZincConnection.cpp:74-151 | any packets sent by one connection and read by another arrive unchanged and in order, one per read, with nothing left over |
| ServerBook.AlwaysConsistent | src/network/minecraft/ZincServer.cpp:43-71 | in every reachable state an address has a counter if and only if it has live clients and it is their number, the online count is the number of clients that finished login, and those are exactly the ones in configuration or play |
| ServerBook.AddKeepsConsistent | src/network/minecraft/ZincServer.cpp:43-56 | accepting a client keeps that |
| ServerBook.RemoveKeepsConsistent | src/network/minecraft/ZincServer.cpp:60-71 | removing a client keeps that |
| ServerBook.ReadKeepsConsistent | src/network/minecraft/ZincServer.cpp:91-350 | packets keep that |
| ServerBook.CapAlwaysKept | src/network/minecraft/ZincServer.cpp:51-53 | at all times at most the allowed number of live clients of an address are not marked 2 |
| ServerBook.LimiterRemembers | src/network/minecraft/ZincServer.cpp:47-50 | the limiter remembers a time no earlier than that of any client it admitted |
| ServerBook.AdmissionsSpaced | src/network/minecraft/ZincServer.cpp:47-50 | two clients of an address that were added without a mark were added more than the limit apart |
| ServerBook.MarkOfNewClient | src/network/minecraft/ZincServer.cpp:43-55 | which mark a new client gets, if and only if in each case: 2 when its address has as many live clients as allowed, else 1 when the limit has not passed since the remembered time, else none; and when the time is remembered |
| ServerBook.AdmittedExactly | src/network/minecraft/ZincServer.cpp:43-55 | so it is for every new client in every reachable state, with live clients counted, not read off the counter |
| ServerBook.RememberedTimeIsOfAnAccept | src/network/minecraft/ZincServer.cpp:47-50 | a remembered time is that of an earlier new client of the same address and was remembered ever since |
| ServerBook.PatientClientAdmitted | src/network/minecraft/ZincServer.cpp:43-55 | a new client of an address with free places is not marked when the limit has passed since all earlier arrivals from there |
| ServerBook.PacketChangesExactly | src/network/minecraft/ZincServer.cpp:100-350 | every state a packet leads to, by packet id and, in the handshake, by the state number asked for (2 login, 3 transfer, all others status); the other clients, the counters and the times stay as they were |
| ServerBook.OnlyThroughLogin | src/network/minecraft/ZincServer.cpp:245-350 | a connection in configuration or play was in login since it was accepted |
| ZincServers.ZincServer.constructor | src/network/minecraft/ZincServer.cpp:43-59 | a new server has no clients |
| ZincServers.ZincServer.AddClient | src/network/minecraft/ZincServer.cpp:43-56 | takes exactly the specified step; when the counter of the address is right, the mark is that of the rules for free places and elapsed time |
| ZincServers.ZincServer.CheckRate | src/network/minecraft/ZincServer.cpp:47-50 | lets the client pass and remembers the time, or marks it and forgets the attempt |
| ZincServers.ZincServer.CountAccount | src/network/minecraft/ZincServer.cpp:51-53 | counts the client and marks it when there are too many |
| ZincServers.ZincServer.RemoveClient | src/network/minecraft/ZincServer.cpp:60-71 | takes exactly the specified step; a counter that reaches zero disappears |
| ZincServers.ZincServer.OnRead | src/network/minecraft/ZincServer.cpp:91-350 | takes exactly the specified step and touches no other connection |
| Messenger.QueuesAreExact | src/loader/ZincMessengerBridge.cpp:15-59 | over any interleaving, what was sent to a receiver by a sender since its registration is what was read followed by what waits, in order |
| Messenger.RegisteredIsTarget | src/loader/ZincMessengerBridge.cpp:49-59 | a target exists if and only if its last registration was not undone |
| Messenger.StepConserves | src/loader/ZincMessengerBridge.cpp:15-59 | no operation on any queue loses, repeats or misdelivers a message of another |
| Messenger.CanReadMeansHasSent | src/loader/ZincMessengerBridge.cpp:23-30 | `canRead` holds if and only if the sender has sent anything in the current registration, even when all of it was read |
| Messenger.ReadTakesEverything | src/loader/ZincMessengerBridge.cpp:39-47 | a read returns all that waits: after it, everything sent in this registration has been received |
| Messenger.UnregisteredSendIgnored | src/loader/ZincMessengerBridge.cpp:15-22 | a send to a receiver that is not registered changes nothing |
| Messenger.ZincMessengerBridge.Send | src/loader/ZincMessengerBridge.cpp:15-22 | takes exactly the specified step |
| Messenger.ZincMessengerBridge.Read | src/loader/ZincMessengerBridge.cpp:39-47 | returns the waiting messages and leaves an empty queue |
| Messenger.ZincMessengerBridge.CanRead | src/loader/ZincMessengerBridge.cpp:23-30 | whether the receiver has a queue from the sender |
| Messenger.ZincMessengerBridge.RegisterTarget | src/loader/ZincMessengerBridge.cpp:49-52 | a second registration keeps what waits |
| Messenger.ZincMessengerBridge.UnregisterTarget | src/loader/ZincMessengerBridge.cpp:56-59 | drops everything that waits |
| Crc32.Crc32Table.Init | src/util/crypto/CRC32.cpp:7-18 | fills the table with each index after eight shifts of the register, once |
| Crc32.Crc32Table.Crc32 | src/util/crypto/CRC32.cpp:19-25 | the table-driven checksum of every message is that of the bit-by-bit shift register with polynomial 0xEDB88320 |
| Crc32.TableStep | src/util/crypto/CRC32.cpp:22-22 | one table step is eight bit steps |
| Crc32.RunIsShift | src/util/crypto/CRC32.cpp:11-14 | feeding bits to the register is shifting it with the bits added |
| Crc32.ByteStepBijective | src/util/crypto/CRC32.cpp:22-22 | the update by any byte is a bijection on the 32-bit state, with an explicit inverse |
| Crc32.RunInjective | src/util/crypto/CRC32.cpp:21-23 | different states stay different whatever bits follow |
| Crc32.WindowInjective | src/util/crypto/CRC32.cpp:21-23 | up to 32 bits that differ lead to different states |
| Crc32.BurstDetected | src/util/crypto/CRC32.cpp:19-25 | messages of equal length whose differing bits lie within 32 consecutive ones never share a checksum |
| Crc32.OneByteDetected | src/util/crypto/CRC32.cpp:19-25 | in particular messages that differ in exactly one byte |
| Crc32.CheckValue | src/util/crypto/CRC32.cpp:7-25 | the checksum of "123456789" is 0xCBF43926 |
| Sha1.StreamPaddingIsStandardExactlyBelowLimit | inc/external/UUID.h:167-191 | the padding is that of section 5.1.1 of FIPS 180-4 if and only if the message is under 2^29 bytes |
| Sha1.InclusiveIsExclusive | inc/external/UUID.h:255-265 | the choice and majority functions with inclusive ors are those of section 4.1.1 of FIPS 180-4 |
| Sha1.LeftRotate1 | inc/external/UUID.h:121-124 | the rotation with an exclusive or is the standard's |
| Sha1.Sha1State.Reset | inc/external/UUID.h:128-137 | back to the initial value and an empty message |
| Sha1.Sha1State.ProcessBlock | inc/external/UUID.h:231-284 | the in-place rounds are the compression of section 6.1.2 of FIPS 180-4 |
| Sha1.Sha1State.Expand | inc/external/UUID.h:233-242 | the message schedule |
| Sha1.Sha1State.ProcessByte | inc/external/UUID.h:139-148 | a byte is added to the message; whole blocks are absorbed when they are full |
| Sha1.Sha1State.ProcessBytes | inc/external/UUID.h:150-165 | the bytes are added to the message |
| Sha1.Sha1State.PadBlock | inc/external/UUID.h:171-183 | zeros up to index 56, through a full block when it is already past |
| Sha1.Sha1State.GetDigest | inc/external/UUID.h:167-195 | the digest is the absorption of the whole message with the padding of the stream, for every message |
| Sha1.Sha1State.GetDigestBytes | inc/external/UUID.h:197-228 | the same as 20 bytes |
| Sha1.HashInParts | inc/external/UUID.h:139-228 | however a message under 2^29 bytes is cut into calls, the digest is the standard's hash of the whole |
| Sha1Example.ConstantsMean | inc/external/UUID.h:128-270 | the round constants are the roots of 2, 3, 5 and 10 scaled by 2^30, and the initial value counts up and down |
| Sha1Example.ScheduleIsTable | inc/external/UUID.h:233-242 | the 80 words of the schedule of "abc" |
| Sha1Example.HashOfAbc | inc/external/UUID.h:139-284 | the digest of "abc" is a9993e36 4706816a ba3e2571 7850c26c 9cd0d89d |
| Sha1Example.DigestBytesOfAbc | inc/external/UUID.h:197-228 | the same as bytes |
| Sha1Example.LengthBytes | inc/external/UUID.h:184-191 | the length in the standard's padding has its highest byte first; the code appends its low four bytes behind four zeros |
| JavaDigest.HexMeansValue | src/util/crypto/MCSHA1.cpp:35-35 | the digits printed for bytes have the value of the bytes |
| JavaDigest.ComplementValue | src/util/crypto/MCSHA1.cpp:25-25 | the value of the complemented bytes |
| JavaDigest.IncrementValue | src/util/crypto/MCSHA1.cpp:26-29 | the carry loop adds one modulo the range |
| JavaDigest.NegatedValue | src/util/crypto/MCSHA1.cpp:22-29 | the bytes are the magnitude of the digest unless the carry should have reached byte 0 |
| JavaDigest.DigestJava | src/util/crypto/MCSHA1.cpp:21-37 | an optional minus and 40 digits whose value is the signed value of the digest, if and only if it is not a negative digest with bytes 1 to 19 all zero; those come out 2^152 too high |

## Left out

- Sockets, libevent, threads, files, JSON, logging and console: the clock and the packets are inputs, each callback and each call under a lock is one atomic step.
- AES, RSA, Base64, random numbers and the inside of zlib: encryption is off, zlib is a pair of functions of which only the round trip is used.
- Buffers.ByteBuffer.ReadBytes: gives no value past the written bytes, and so do the NBT, display, light and chunk readers on it, while the code goes on with the zeros of the block and short vectors. The block buffer, `Buffers.ByteBuffer.ReadStored` and the packet frames are modelled with them.
- setWriter of the block buffer.
- Blocks of the block buffer are sequences, not arrays: aliasing of blocks is not modelled.
- The bit operators of variable-length numbers and of packed coordinates are given as arithmetic on integers.
- Sizes are unbounded where the code uses 64-bit ones; the casts to 32- and 16-bit lengths are modelled.
- NbtLittleEndianNetwork.LittleEndianNetworkCompound: does not say what happens when the first child's tag has 2^15 bytes or more, where its length may read the same by accident.
- NbtLittleEndianLists.LittleEndianNetworkListFails: leaves out first items at the edge of the ranges, and lists of ints, longs and compounds: an int can read as itself from five bytes by accident, and empty compounds read alike in both modes.
- NbtCodec.Encode: settings that impose another type than the element has; `toJSON`, lookups and comparison of NBT elements.
- Displays.SlotRoundTrip: leaves out trees with item stacks, whose reader does not read what the writer writes; what is left unread is stated for an item stack alone.
- Displays of unregistered types: the code inserts them into the registry and then calls an empty function. Registering further types at run time.
- Fields of displays that a reader leaves uninitialised are 0 in the model. `customData` is never written and is left out.
- WorldData.ChunkRoundTrip: for big-endian buffers, since its block entities are network NBT.
- LightData's operator `!=` compares for equality (src/type/LightData.cpp:20), against its name; it is not modelled.
- BitSets.BitSet.Set: positions from 2^64 - 64 on, where the size computation of the code wraps around to 0 and the code then indexes outside its words, which C++ leaves undefined; BitSets.BitSet.Flip likewise.
- FramePrefixes.CutFrameIsPacketExactlyWhenZeros: for the layouts without compression; what zlib makes of a compressed body that was cut short is not described beyond `FramePrefixes.CutFrame`.
- Framing.ZincConnection.Read: a negative size makes the code throw; the model gives no packet there.
- Sound events, chat types, consume effects and text components, whose two sides do not match; slots, positions, angles, identifier sets and vectors, which would only add easy members.
- Bans, login checks, plugin channels and keep-alive packets of the server: they do not change the bookkeeping.
- Sha1.HashInParts: lengths at or above 2^29 bytes are covered by Sha1.Sha1State.GetDigest, with the padding the code uses.
- OpenSSL's digest under `digestJava`; UUID parsing and printing.
- getSenders, the server target and the random identifiers of the messenger bridge.
