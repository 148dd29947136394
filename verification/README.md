# Verified model of a Rust utility crate

The crate offers small building blocks for network code: a pool of buffers that come home by themselves, a key=value text format, socket addresses, variable-length integers, a ring buffer, a rate limiter and hexadecimal and escape codecs. This project models them as they are written, in Dafny, and proves what they are for.

Code that changes things in place is a class or a method with a loop, tied by its `ensures` to a specification; the theorems are lemmas about that specification. A source file has one module, or several where a model and its theorems are long:

| files | what they model |
|---|---|
| `Memory`, `Buf`, `FreeList`, `PoolLayout`, `PoolRefinement`, `Pool` | a pool's block as flat bytes, and its refinement of a stack and a family of bounded sequences |
| `Reclaim` | the same pool as an interleaving of the steps of many threads: who frees the block, and when |
| `Dictionary`, `DictionaryFormat`, `DictionaryTheorems`, `DictionaryBytes`, `Utf8`, `Lex` | the key=value format |
| `InetAddress`, `Cidr` | socket addresses: fields, order, hashing, range matching, wire format |
| `Varint`, `Hex`, `StrEscape`, `Bits`, `Arithmetic`, `Io` | the codecs, and machine integers |
| `RingBuffer`, `Gate` | the ring buffer against its history, the rate limiter over whole runs |

The host is taken to be a 64-bit little-endian Linux: pointers have eight bytes, `sockaddr_storage` has 128, `AF_INET` is 2 and `AF_INET6` is 10. A failed assertion, or an index out of range, is the answer `Panic` of an `Outcome`. A read that meets the end of its input answers `UnexpectedEof`.

## Where the code does less than it seems to promise

These are stated in the contracts as the code has them, with the exact condition where the code and the evident intent agree.

- The drop of a pool's handle tests a flag that only it sets, so a pool whose buffers are all home by then is never freed (`Pools.Pool.Drop`, `Reclaim.ExactReclamation`).
- A buffer's capacity must be a positive multiple of eight. `Buf::create_from` of nothing panics, and so does asking a pool for more than its buffer capacity when that is no multiple of eight (`Buffers.CreateFrom`, `Pools.Pool.GetWithMinCapacity`).
- An entry with the empty key is written but skipped when read (`DictionaryTheorems.RoundTripIdentity`).
- The number zero is stored as no digits at all, which does not read back (`DictionaryObject.Dictionary.GetU64`).
- A hexadecimal integer with an odd number of digits loses the last one (`Hex.IntegerRoundTripExactly`).
- A CIDR range of 0 bits compares all 32 bits of an IPv4 address, one of 8k bits compares 8k + 8 bits of an IPv6 address, and 128 equal bits panic (`InetAddresses.DocumentedWidthV4`, `InetAddresses.DocumentedWidthV6`, `InetAddresses.PanicsExactly`). The documentation at src/inetaddress.rs:716-719 says that the port is the number of bits; the model follows the code.
- Addresses of a family other than nil, IPv4 and IPv6 are all equal to each other but not ordered as equal (`InetAddresses.EqualExactly`).
- A ring buffer's counter wraps after 2^64 additions, when it shows fewer elements than it holds and leaks the others (`RingBuffers.KeepsTheLastExactly`).
- Reading an integer from a stream goes on beyond the ten bytes at which decoding gives up, and may then give another number than the digits spell (`Varint.ReadBeyondTenBytes`, `Varint.ReadValueExactly`).
- A repeat whose count and length add up to 2^64 or more passes the capacity check in a release build and writes beyond the buffer (`Buffers.FlatIsBoundedExactly`). The comment at src/buf.rs:149-151 promises a refusal.
- A pool whose size in bytes is 2^64 or more is allocated too small in a release build, and filling it leaves the block (`Pools.NewPool`).

## Model

| member | source | states |
|---|---|---|
| Buffers.FlatIsBounded | src/buf.rs:77-166 | unless the sum of length and count of a repeat wraps, every operation on a buffer in memory (clear, resize, clear_and_resize, append, push, repeat) does to its contents what the same operation does to a byte sequence bounded by the capacity, gives the same answer, keeps the capacity field, and leaves every byte outside length field and data alone |
| Buffers.FlatIsBoundedExactly | src/buf.rs:77-166 | an operation in memory acts as on a bounded sequence if and only if it is not a repeat whose count and the length add up to 2^64 or more |
| Buffers.FlatSeen | src/buf.rs:77-166 | what a caller sees of every operation that does not wrap: each byte of the contents and the answer, while everything outside length field and data stays |
| Buffers.RepeatOverruns | src/buf.rs:154-163 | a repeat whose sum wraps passes the capacity check, shortens the buffer, and its fill leaves the block |
| Buffers.RepeatCanOverrun | src/buf.rs:154-163 | there is a buffer and a count for which a repeat does not act as on a bounded sequence |
| Buffers.Buf.Clear | src/buf.rs:77-79 | the whole memory afterwards; the buffer is empty |
| Buffers.Buf.Resize | src/buf.rs:83-92 | the whole memory afterwards, and byte by byte the contents: the old ones as far as they go, then the given value; panics, with nothing changed, exactly above the capacity |
| Buffers.Buf.ClearAndResize | src/buf.rs:97-103 | the whole memory afterwards, and byte by byte the contents, all of the given value; panics, with nothing changed, exactly above the capacity |
| Buffers.Buf.Append | src/buf.rs:118-130 | the whole memory afterwards; the contents are the old ones and the bytes; false exactly when they do not fit, and then nothing changed |
| Buffers.Buf.Push | src/buf.rs:135-147 | the whole memory afterwards; the contents are the old ones and the byte; false exactly when the buffer is full, and then nothing changed |
| Buffers.Buf.Repeat | src/buf.rs:154-166 | the whole memory of the block afterwards, for every count, and unless the sum wraps byte by byte the contents: the old ones, then as many of the given value; refused with nothing changed when the wrapped sum exceeds the capacity, and out of bounds exactly when the fill leaves the block |
| Buffers.Buf.Clone | src/buf.rs:258-265 | a clone is a standalone buffer in memory of its own with the same contents and capacity, even when the original is pooled |
| Buffers.New | src/buf.rs:36-49 | succeeds exactly for a positive multiple of eight up to 2^31 - 1, and gives an empty standalone buffer of that capacity |
| Buffers.CreateFrom | src/buf.rs:50-54 | succeeds exactly for at least one byte and at most the maximum, and holds those bytes in the least sufficient capacity |
| PoolLayout.RecordsInOrder | src/buf.rs:339-350 | the records of a pool lie inside the block, behind the slots, and do not overlap |
| PoolLayout.BlockSize | src/buf.rs:309-314 | the end that the filling loop reaches is the end of the memory that was asked for |
| PoolLayout.Aligned | src/buf.rs:309-350 | every slot, back-pointer and header is at an address divisible by eight |
| PoolLayout.OnlyOneRecord | src/buf.rs:83-166 | a change to one buffer changes the contents of that record and no other record, back-pointer, header or slot |
| PoolRefinement.TakeAnswer | src/buf.rs:367-373 | the address taken from the stack is that of a record that had been handed to nobody, empty whatever earlier users wrote into it |
| PoolRefinement.UseRefines | src/buf.rs:77-166 | any operation, unless a repeat wraps, by someone the buffer was handed to acts on it as on a bounded sequence with the same answer, and all other buffers and the whole array of free pointers stay as they are |
| PoolRefinement.GiveBackRefines | src/buf.rs:240-243 | a cleared buffer pushed by someone it was handed to finds room, goes on top of the stack, is no longer handed out, and every buffer keeps its contents |
| PoolRefinement.ReturnStep | src/buf.rs:232-243 | the two stores of a drop leave the record empty on top of the stack, whatever was in it, and no other record changed |
| PoolRefinement.StepRefines | src/buf.rs:77-392 | taking, using and pushing over the bytes of the block is taking, using and pushing over a stack, a family of sequences and the multiset of records handed out, by those who were handed them |
| PoolRefinement.RunRefines | src/buf.rs:77-392 | the same for every run in which a buffer is used or pushed only by someone it was handed to |
| PoolRefinement.NewRepresents | src/buf.rs:342-350 | a new block stands for a full stack, empty buffers and none handed out |
| PoolRefinement.Independent | src/buf.rs:77-392 | after any run the contents of a record depend only on what was done to that record |
| Pools.NewPool | src/buf.rs:304-354 | fails an assertion exactly on a bad capacity or count or a null allocation; leaves the block exactly when the size it asks for wraps; and otherwise makes a block with every record free, distinct and empty |
| Pools.FillAll | src/buf.rs:339-350 | the filling loop stays inside the block that was allocated, and fills every record and slot, exactly if the size did not wrap |
| Pools.FillRecord | src/buf.rs:342-350 | one round of the filling loop completes one more record and slot and spoils none of the earlier ones |
| Pools.Pool.PoolRemaining | src/buf.rs:358-360 | the number of buffers minus the number of those handed out and not returned |
| Pools.Pool.Get | src/buf.rs:367-377 | an empty buffer of the pool's capacity: the top record, which had been handed to nobody and is now recorded as handed out, or else memory of its own |
| Pools.Pool.GetWithMinCapacity | src/buf.rs:386-392 | panics exactly when more than the pool's capacity is asked for and a standalone buffer cannot have it; otherwise an empty buffer with enough capacity that nobody has |
| Pools.Pool.CreateFrom | src/buf.rs:378-382 | the buffer is the top record or memory of its own, holds exactly the given bytes, and every other buffer of the pool keeps its contents |
| Pools.Pool.Drop | src/buf.rs:395-410 | frees the block only if the flag was already set and nobody has a buffer; otherwise only sets the flag |
| Pools.ReturnRecord | src/buf.rs:233-244 | the assertion of line 241 holds; the record goes from its holder, empty, to the top of the stack, and the test says whether nobody has a buffer and the handle is gone |
| Pools.DropBuf | src/buf.rs:227-247 | a buffer that was handed out finds its own pool, and the block is freed exactly when the handle is gone and nobody has a buffer any more |
| Reclaim.StepKeeps | src/buf.rs:227-256 | every step of every thread keeps each record in one place (stack, one user, or one drop under way), the stack empty, what the mutex holder found out true, and deallocation due exactly when it should be |
| Reclaim.SafeReclamation | src/buf.rs:227-410 | under every interleaving the block is freed at most once, only after the handle is dropped and no user has a buffer and no drop is under way, and between the last unlock and the deallocation, and after it, no thread can do anything else |
| Reclaim.Conservation | src/buf.rs:232-376 | in every reachable state each original record is on the stack, with one user or in one drop under way, exactly once; so the free ones are all minus those, a returning buffer has room, and what `get` would hand out is empty and nobody's |
| Reclaim.GetHandsOut | src/buf.rs:367-373 | a record taken from the stack was with nobody and is then with its taker alone |
| Reclaim.ExactReclamation | src/buf.rs:244-409 | in every complete run the block is freed exactly once if a user or a drop under way had a buffer when the handle was dropped, and never if none had |
| Reclaim.LastReturnFrees | src/buf.rs:241-247 | the thread that goes on to deallocate is the one that gave back the last buffer anybody had, after the handle was dropped |
| Reclaim.StuckExactlyWhenComplete | src/buf.rs:227-410 | no step is left exactly when the handle is gone, no user has a buffer, no drop is under way and no deallocation is due: no deadlock, and no buffer is lost |
| Reclaim.Progress | src/buf.rs:227-256 | once the handle is gone the use of a buffer leaves the work to do as it is, and every other step lessens it |
| Reclaim.Closes | src/buf.rs:227-256 | once the handle is gone a run has only so many steps beside the use of buffers as a number known from the state |
| Reclaim.Linearized | src/buf.rs:227-410 | however the steps of the threads interleave, the free stack, all contents and the buffers handed out are those of one sequence of actions, each by someone the buffer was handed to |
| Reclaim.DropIsDrop | src/buf.rs:229-247 | the clear, locked push and unlock of one thread are the clear and push of the sequential model |
| Reclaim.OverMemory | src/buf.rs:227-410 | from a new block on and after every interleaving, the bytes of the block, changed by exactly the stores of each step, are what the machine's state says |
| DictionaryObject.WriteEscaped | src/dictionary.rs:25-50 | appends the escaped bytes to what was written |
| DictionaryObject.Dictionary.WriteTo | src/dictionary.rs:130-138 | appends the serialized entries in key order, a key before those it is a prefix of and otherwise by the first byte that differs |
| DictionaryObject.Dictionary.ToBytes | src/dictionary.rs:140-144 | the serialized entries, in that order |
| DictionaryObject.Dictionary.FromBytes | src/dictionary.rs:146-189 | the loop over state, escape flag and two accumulators is the parse that the theorems are about, equals the two-stage specification, fails exactly on malformed input, and gives a new and well-formed dictionary |
| DictionaryBytes.EscapedByteRead | src/dictionary.rs:153-163 | behind a backslash 0, n, r and e stand for NUL, LF, CR and the equals sign and every other byte for itself, in a key and in a value |
| DictionaryBytes.PlainByteRead | src/dictionary.rs:184-186 | any byte but LF, CR, the equals sign and the backslash stands for itself, and a CR for nothing |
| DictionaryBytes.SeparatorRead | src/dictionary.rs:164-183 | the first equals sign ends the key and a second is refused; LF ends a line that had one, and is refused otherwise |
| DictionaryBytes.EscapedValueRead | src/dictionary.rs:146-189 | what a line with one escaped byte as its value parses to, for every byte |
| DictionaryBytes.WrittenByte | src/dictionary.rs:26-48 | NUL, LF, CR, the equals sign and the backslash are written as a backslash and 0, n, r, e and a backslash, all other bytes as they are |
| DictionaryBytes.WrittenEntry | src/dictionary.rs:131-136 | byte strings are written byte by byte, and an entry as key, equals sign, value and LF |
| DictionaryBytes.ShorterKeyFirst | src/dictionary.rs:130-144 | a key that another begins with is written before it, whichever was set first |
| Lex.LtIsPrecedes | src/dictionary.rs:18-23 | the order of keys: a proper prefix comes first, and otherwise the first difference decides |
| Utf8.ValidExactly | src/dictionary.rs:174-181 | a key is accepted exactly if it is the UTF-8 encoding of some sequence of code points |
| DictionaryObject.Dictionary.SetBytes | src/dictionary.rs:115-117 | changes the mapping at one key and nowhere else |
| DictionaryObject.Dictionary.SetU64 | src/dictionary.rs:111-113 | stores the hexadecimal form without leading zeroes, and changes no other key |
| DictionaryObject.Dictionary.GetU64 | src/dictionary.rs:93-95 | reads back every number that was stored, except that zero gives nothing |
| DictionaryObject.Dictionary.GetBytes | src/dictionary.rs:89-91 | the value exactly when there is one |
| DictionaryObject.Dictionary.GetStr | src/dictionary.rs:85-87 | the value exactly when there is one and it is UTF-8 |
| DictionaryObject.Dictionary.GetBool | src/dictionary.rs:101-105 | nothing exactly without the key; true exactly when the value begins with 1, t, T, y or Y |
| DictionaryTheorems.OnePassIsTwoStage | src/dictionary.rs:146-189 | the one-pass parser is: split into escaped and plain bytes, split at plain newlines, split each line at its one plain equals sign, then unescape |
| DictionaryTheorems.RejectsExactlyMalformed | src/dictionary.rs:164-182 | the parse fails exactly when a complete line has no plain equals sign, or any line has two, or a complete line's non-empty key is not UTF-8 |
| DictionaryTheorems.AcceptedMapping | src/dictionary.rs:169-188 | an accepted text gives the mapping of its complete lines with a non-empty key, the last one winning, sorted |
| DictionaryTheorems.CarriageReturnsIgnored | src/dictionary.rs:184-186 | deleting the plain carriage returns never changes the result |
| DictionaryTheorems.RoundTrip | src/dictionary.rs:25-189 | for all binary values, parsing what was serialized gives the dictionary without the empty key |
| DictionaryTheorems.RoundTripIdentity | src/dictionary.rs:174-181 | it gives back the very dictionary if and only if the empty key is not in it |
| DictionaryTheorems.ParsedIsFixedPoint | src/dictionary.rs:130-189 | whatever was parsed is unchanged by serializing and parsing again |
| DictionaryTheorems.Truncation | src/dictionary.rs:130-189 | every byte prefix of serialized output parses to the entries whose lines are complete in it |
| DictionaryTheorems.Concatenation | src/dictionary.rs:130-189 | serialized output with anything after it parses exactly when that does, to the first mapping overridden by the second |
| DictionaryTheorems.SerializeInjective | src/dictionary.rs:130-144 | different dictionaries have different serialized forms, with an empty key too |
| DictionaryTheorems.CanonicalForm | src/dictionary.rs:107-144 | two sequences of set calls give the same bytes if and only if they give the same mapping |
| DictionaryFormat.SortedListingUnique | src/dictionary.rs:23 | a mapping has one sorted listing |
| DictionaryFormat.InsertMap | src/dictionary.rs:107-128 | insertion into the sorted listing is update of the mapping |
| InetAddresses.InetAddress.Set | src/inetaddress.rs:582-619 | each of the 128 bytes afterwards: family, port and address in their places, and zeroes everywhere else; the family is 0 exactly for a wrong length |
| InetAddresses.InetAddress.SetPort | src/inetaddress.rs:705-714 | changes the port of an IP address and nothing else, and nothing at all of other addresses |
| InetAddresses.BuiltFields | src/inetaddress.rs:582-699 | family, address and port of a built address are those it was built from |
| InetAddresses.InetAddress.IsWithin | src/inetaddress.rs:720-758 | no for different families, for families without addresses and for more bits than there are; otherwise the shifts and the byte loop compare a leading part of the big-endian bits, whose width is given for each number of bits, or panic |
| InetAddresses.DocumentedWidthV4 | src/inetaddress.rs:716-734 | an IPv4 range does what is documented, for all addresses, exactly when its number of bits is not 0 |
| InetAddresses.DocumentedWidthV6 | src/inetaddress.rs:716-752 | an IPv6 range does what is documented, for all addresses, exactly when its number of bits is not a multiple of 8 |
| InetAddresses.PanicsExactly | src/inetaddress.rs:735-748 | matching panics exactly when both are IPv6, the range has 128 bits and the address is that of the range |
| Cidr.ShiftComparesPrefix | src/inetaddress.rs:727-730 | equality of two big-endian numbers shifted right is equality of the leading bits |
| Cidr.BytesComparePrefix | src/inetaddress.rs:739-750 | equality of whole bytes and of one shifted byte is equality of the leading bits |
| InetAddresses.OrderIsLexicographic | src/inetaddress.rs:1080-1137 | the order is that of the byte strings of family, address and port |
| InetAddresses.OrderIsTotal | src/inetaddress.rs:1080-1137 | the order is antisymmetric and transitive, and ties are interchangeable |
| InetAddresses.OrderByFields | src/inetaddress.rs:1080-1137 | nil before IPv4 before IPv6, then the address as a big-endian number or byte by byte, then the port |
| InetAddresses.EqualByFields | src/inetaddress.rs:1041-1067 | equal exactly if of one family and with the same port and address bytes, where the family has them |
| InetAddresses.EqualExactly | src/inetaddress.rs:1041-1137 | ordered as equal and being equal agree if and only if the family is known, or differs, or the bytes are the same |
| InetAddresses.HashedAlike | src/inetaddress.rs:1139-1157 | equal addresses feed the same to a hasher, and of nil, IPv4 and IPv6 addresses only equal ones do |
| InetAddresses.InetAddress.WriteBytes | src/inetaddress.rs:929-955 | appends the wire form |
| InetAddresses.ReadBytes | src/inetaddress.rs:909-927 | answers the address on the wire and leaves the rest unread, or reports the end exactly when bytes are missing |
| InetAddresses.WireBytes | src/inetaddress.rs:908-956 | the tag 4, 6 or 0, then address and port in network order; reading fails exactly when fewer than 1, 7 or 19 bytes are there, and puts each byte in its place |
| InetAddresses.WireRoundTrip | src/inetaddress.rs:908-956 | 1, 7 or 19 bytes are written, and exactly these are consumed to give the address again, whatever follows |
| InetAddresses.WireStreamRoundTrip | src/inetaddress.rs:908-956 | any list of addresses written back to back is read back equal, and nothing more is consumed |
| InetAddresses.ReadThenWritten | src/inetaddress.rs:908-956 | what was read is written back as the same bytes if and only if the tag was 0, 4 or 6 |
| Varint.Encode | src/varint.rs:18-33 | writes the base-128 digits, at most ten, and leaves the rest of the slice alone; panics exactly when the slice is too short for them, having filled it with the first of them |
| Varint.Write | src/varint.rs:37-41 | appends the base-128 digits |
| Varint.Decode | src/varint.rs:48-64 | the loop with its wrapping shifts computes the specified value and length, or nothing |
| Varint.Read | src/varint.rs:68-85 | answers the specified value and length and leaves the rest unread |
| Varint.RoundTrip | src/varint.rs:18-85 | every 64-bit number decodes and reads back with its exact length, whatever follows it |
| Varint.EncodingDigits | src/varint.rs:18-33 | byte k of an encoding is digit k in base 128, and only the last has its top bit set |
| Varint.StreamRoundTrip | src/varint.rs:37-85 | numbers written back to back are read back unchanged, and nothing more is consumed |
| Varint.ShortestEncoding | src/varint.rs:18-33 | the length is between 1 and 10 and the least number of base-128 digits that can hold the value |
| Varint.DecodingSucceeds | src/varint.rs:48-64 | decoding succeeds exactly when one of the first ten bytes has its top bit set |
| Varint.AccumulatedIsLowBits | src/varint.rs:53-60 | what the shifts and ors accumulate in up to ten bytes is the sum of their low bits in base 128, modulo 2^64 |
| Varint.ReencodingNotLonger | src/varint.rs:18-64 | encoding a decoded value again takes no more bytes than were consumed |
| Varint.ReadAgreesWithDecode | src/varint.rs:48-85 | decoding succeeds exactly when reading does within ten bytes, and then with the same result |
| Varint.ReadBeyondTenBytes | src/varint.rs:68-85 | some input can be read that cannot be decoded, and gives another number than its digits spell |
| Varint.ReadValueExactly | src/varint.rs:68-85 | reading gives the base-128 number modulo 2^64 if and only if it took at most ten bytes, or the bits of every later byte, where the wrapped shift puts them, were set already |
| RingBuffers.RingBuffer.Add | src/ringbuffer.rs:28-36 | panics, with nothing changed, exactly when the capacity is zero; otherwise the history and the elements ever added grow by the one, it is in its slot, exactly what the slot held is dropped if the buffer was full and nothing if not, and a counter that wraps leaks what all slots hold |
| RingBuffers.RingBuffer.Clear | src/ringbuffer.rs:40-45 | drops exactly the elements that are live, each once |
| RingBuffers.RingBuffer.Drop | src/ringbuffer.rs:62-67 | drops exactly the elements that are live, each once |
| RingBuffers.RingBuffer.Iter | src/ringbuffer.rs:49-52 | the iterator has before it the last elements of the history, as many as the counter and the capacity allow, oldest first |
| RingBuffers.RingBufferIterator.Next | src/ringbuffer.rs:79-89 | yields the next of them, oldest first, from a written slot |
| RingBuffers.KeepsTheLastExactly | src/ringbuffer.rs:35-51 | what is kept is the last min(additions, capacity) elements if and only if there were fewer than 2^64 additions since the last clear, or the wrapped counter has reached the capacity again |
| RingBuffers.YieldIsLive | src/ringbuffer.rs:49-89 | draining the iterator reads only written slots and gives the live elements in order |
| RingBuffers.AccountsAfterAdd | src/ringbuffer.rs:28-45 | elements added are those live, dropped and leaked, and nothing is leaked until the counter wraps |
| RingBuffers.InvAfterAdd | src/ringbuffer.rs:28-36 | an addition keeps the slots in step with the history and the account, and overwrites the oldest live element |
| RingBuffers.InUse | src/ringbuffer.rs:40-44 | the slots that clearing goes through are written and hold exactly the live elements |
| Gate.IntervalGate.Gate | src/gate.rs:27-34 | over a whole run, the calls admitted are those the greedy specification admits |
| Gate.NoOverflow | src/gate.rs:28 | with representable differences no subtraction overflows |
| Gate.AdmittedSeparated | src/gate.rs:27-34 | admitted calls are at least the interval apart from each other, and from the initial time |
| Gate.StaysAhead | src/gate.rs:27-34 | against any separated choice of calls the gate has admitted as many, and its last one no later |
| Gate.GreedyIsOptimal | src/gate.rs:13-34 | from the default state, for clock readings below 2^62 and an interval of at most 2^62, no separated choice of calls is larger than what is admitted, and no subtraction overflows |
| Gate.OptimalExactly | src/gate.rs:13-34 | for all such runs the gate admits the most possible exactly when the interval is at most 2^62 |
| Gate.WindowBound | src/gate.rs:27-34 | any window of time holds at most its length divided by the interval, plus one, of the calls admitted |
| Hex.ToString | src/hex.rs:14-23 | the digits of all bytes in order |
| Hex.EncodedDigits | src/hex.rs:14-23 | two characters a byte, the high digit and then the low, in lower case |
| Hex.FromString | src/hex.rs:26-53 | the nibble state machine pairs the digits and ignores everything else |
| Hex.CharactersRead | src/hex.rs:26-53 | 0 to 9, A to F and a to f are digits of that value, and all other characters are skipped |
| Hex.DecodeThroughNoise | src/hex.rs:14-53 | bytes decode from their digits with any other characters in between, although the accumulator is never reset |
| Hex.CaseIgnored | src/hex.rs:38-49 | a decoded text may have its letters in either case |
| Hex.ToHexBytes | src/hex.rs:115-124 | writes the same digits in place and leaves the rest of the slice alone; panics exactly when the slice is too short, having filled it with the first of them |
| Hex.ToVecU64 | src/hex.rs:101-111 | sixteen lower-case digits of the value, or without the leading zeroes |
| Hex.IntegerDigits | src/hex.rs:101-111 | every character is the digit of its place, in lower case |
| Hex.FromStringU64 | src/hex.rs:68-98 | the big-endian value of the bytes that decoding gives, modulo 2^64 |
| Hex.HexFormUnique | src/hex.rs:56-111 | the digits and the stripping determine the text |
| Hex.IntegerReadBack | src/hex.rs:56-98 | reading back gives the number when the count of digits is even, and a sixteenth of it when odd |
| Hex.IntegerRoundTripExactly | src/hex.rs:56-98 | reading back gives the number if and only if the count of digits is even |
| Hex.StrippedParsesBack | src/hex.rs:101-111 | the stripped form is text that the standard parser reads back, except for zero |
| Hex.RadixSnoc | src/dictionary.rs:93-95 | the standard parser: a digit more multiplies by sixteen, as long as that fits in 64 bits |
| Hex.RadixRefuses | src/dictionary.rs:93-95 | the standard parser refuses no text, and any character that is neither a digit nor a leading sign |
| StrEscape.Escape | src/str.rs:13-26 | the escaped form |
| StrEscape.Unescape | src/str.rs:29-56 | the unescaped form, for truncated escapes and escapes of other characters too |
| StrEscape.EscapedByte | src/str.rs:15-24 | characters 43 to 126 but the backslash and the backquote are left alone, all other bytes become a backslash and two lower-case digits |
| StrEscape.CharactersRead | src/str.rs:32-54 | behind a backslash two characters are taken, of which those that are no digits count for nothing; fewer than two end the text; all else stands for itself |
| StrEscape.EscapeRoundTrip | src/str.rs:13-56 | unescaping an escaped string with anything after it gives the string, and then the rest unescaped |
| StrEscape.EscapedIsPrintable | src/str.rs:11-26 | every character of the escaped form is printable, and none is a quote or backquote |

## Left out

- The allocator: the address it gives, or null, and the size of the bookkeeping struct are parameters of `Pools.NewPool`; what is allocated fits the address space. For standalone buffers a null result, deallocation and layout are not modelled.
- What happens after an address outside of a block was formed or written to: `Buffers.Buf.Repeat` and `Pools.NewPool` end with that answer. Sums and sizes wrap as in a release build, where a debug build panics.
- The runs of `Reclaim` and `PoolRefinement` have no repeat that wraps, since nothing holds of a block that was written beyond its buffers; standalone buffers have no part in them, and `pool_remaining` only reads.
- The bookkeeping struct's own bytes: the cursor and the flag are fields of a class, guarded by the mutex.
- The mutex itself: a critical section is one step, with its unlocking another; poisoning, memory ordering and the instructions inside an unlock are not modelled.
- Gate.IntervalGate.Gate: a difference that overflows wraps, as in a release build, where a debug build panics.
- `Buf::set_size`, an unchecked promise of the caller, and `copy_within`, indexing, slices, equality and the `Write` impl of `Buf`, thin forwards to the standard library.
- `BTreeMap` is a strictly sorted listing, and `from_str_radix`, `from_utf8` and `read_exact` are modelled by their contracts.
- `hex::to_string_u64` is the loop of `hex::to_vec_u64` over a `String`; `set_str` is `set_bytes`; each pair is modelled once.
- `Dictionary::to_string`, `get_i64`, iteration, and I/O errors of a writer.
- Text forms, scopes, serde and standard-library conversions of addresses, and the Windows variants.
- Varint.Encode: has no part in the debug assertion that ten bytes are there.
- The counter `pos` of the varint loops is a 32-bit number that may wrap; shifts use it modulo 64, so nothing depends on that.
- The other files of the crate: thin wrappers, casts, I/O, clocks and constants.
