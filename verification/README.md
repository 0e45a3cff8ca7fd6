# Verified model of the inline code in the MySQL client headers

The MQLMySQL library is compiled against the MySQL 5.7.28 client headers. Those headers carry inline code of
their own: lock wrappers, a space scan, a byte-order codec, deadline arithmetic, buffered-file macros and the
SSL option cases. This project models that code in Dafny and proves what it promises.

| file | models |
|---|---|
| `Options.dfy` | optional values |
| `Bits.dfy` | machine integers: wrap-around, conversions, shifts, `&`, `\|`, `~` |
| `Align.dfy` | `MY_ALIGN` |
| `Codec.dfy` | the low-byte-first format, independent of the C expressions that compute it |
| `ByteOrder.dfy` | the `korr` loads and `store`s, generic and direct, and records of several fields |
| `HostOrder.dfy` | the float, double, short and long accessors of both byte orders |
| `SkipSpace.dfy` | both versions of `skip_trailing_space` |
| `RwLock.dfy` | the Windows reader/writer lock, statement by statement, for any number of threads |
| `Mutex.dfy` | the Windows mutex, likewise |
| `Deadline.dfy` | building, comparing and waiting for deadlines, in both representations |
| `IoCache.dfy` | the in-buffer reads and writes of `IO_CACHE` |
| `SslOptions.dfy` | the SSL option cases folded over a command line, and the connection settings that result |

**How the code is modelled.** Integers are unbounded and every conversion of the C code is written out
(`U8`...`U64`, `S16`...`S64`; `x << k` is `x * 2^k` reduced to its type). Bytes are integers below 256, buffers are
arrays, a pointer into a buffer is an array and an offset. Signed overflow wraps, as the compilers in question
make it. Floats and doubles are their bit patterns.

**The two lock machines.** A state holds the operating system's lock, the wrapper's own fields and, for each
thread, the C statement it is about to execute, what it held when its current call began and (for the
reader/writer lock) what it holds now. An event begins a call or executes one statement of one thread; a run is
any sequence of enabled events, under sequential consistency. The operating system's primitives are modelled by
their contracts, and an improper release leads to a `Misused` state that the theorems show is never reached. A try
on the slim lock may fail at any time; a try on a critical section fails only when another thread owns it. The one
rule for clients is that a thread unlocks only what it holds. The classes `NativeRwLock` and `NativeMutex` execute
the statements in place and are proved to do what the machines say.

**Results where the code falls short.** Each has its exact condition, and an input a caller can give:

| shortfall | exact condition | input |
|---|---|---|
| rounding up overflows the word, to zero | `MyAlignExact`, `MyAlignMonotoneExactly` | `AlignOverflowExample` |
| `float8store` is not portable to hardware that exchanges the words of a double | `Float8AcrossMachines` | `Float8NotPortableExample` |
| a deadline beyond the signed range: the wait is lost, and grows as the clock advances | `FileWaitExact`, `NeverGrowsExactly` | `CorrectedClockExample` |
| of two deadlines from one clock reading only one is beyond the signed range: they compare the wrong way round | `FileTimeCoarsens` | `FileTimeOrderExample` |
| seconds times 10^9 overflows | `SecondsExactly` | `SecondsOverflowExample` |
| a wait of 2^32 ms or more is cut, and some finite waits become infinite | `TimespecWaitExact`, `TimespecSameClock` | `LongTimeoutDoesNotWait`, `FiniteTimeoutWaitsForever` |
| a wait of 2^32 ms or more grows as the clock advances | `WaitNeverGrowsExactly`, `WaitNeverGrowsOnceBuilt` | `WaitGrowsExample` |
| a CA is neither used nor warned about | `CaDroppedSilently` | `CaDroppedExample` |

**Where code and comment disagree.** The comment above `skip_trailing_space` (m_string.h:281) promises the last
non-space character; the code returns the address after it, and so does the model.

`dafny verify dfyconfig.toml` checks the whole project.

## Model

| member | source | states |
|---|---|---|
| RwLock.StepInv | MySQL-5.7.28 x32/include/thr_rwlock.h:80-138 | no statement of any thread, in any interleaving, breaks the invariant tying the slim lock to the number of holders and the flag to the one writer that is past setting and before clearing it |
| RwLock.FlagTellsMode | MySQL-5.7.28 x32/include/thr_rwlock.h:124-133 | the flag is down while anyone holds a read lock, and whoever tests it in unlock finds it up exactly if it holds the write lock |
| RwLock.RunInv | MySQL-5.7.28 x32/include/thr_rwlock.h:59-138 | every state of every run satisfies the invariant |
| RwLock.MutualExclusion | MySQL-5.7.28 x32/include/thr_rwlock.h:50-138 | at most one writer, never beside a reader; the slim lock is never released in a mode it is not held in |
| RwLock.UnlockReleasesItsOwnMode | MySQL-5.7.28 x32/include/thr_rwlock.h:124-138 | in every run each unlock goes on to release exactly the mode its caller held when it called, and the slim lock is then held in that mode |
| RwLock.CallIsTheOneBegun | MySQL-5.7.28 x32/include/thr_rwlock.h:80-138 | until a thread begins another call, the call it is in is the one it began, with what it held when it began it |
| RwLock.EveryCallWasBegun | MySQL-5.7.28 x32/include/thr_rwlock.h:80-138 | every thread in a call has begun it |
| RwLock.EveryCallKeepsItsPromise | MySQL-5.7.28 x32/include/thr_rwlock.h:80-138 | a call begun with a given operation returns with its caller holding what that operation and the code promise, compared with what it held when it began the call: one more share, the only write lock, one lock fewer, or, on EBUSY, the same; after a success the slim lock is in the acquired mode and the flag tells it |
| RwLock.CallsComeBack | MySQL-5.7.28 x32/include/thr_rwlock.h:80-138 | every statement of its own brings a call nearer its return, and it is over after at most 2 of them for a read, 3 for a write and 4 for an unlock, whatever other threads do in between |
| RwLock.TryAndUnlockNeverWait | MySQL-5.7.28 x32/include/thr_rwlock.h:90-138 | from its begin to its return a try or an unlock can always take its next step |
| RwLock.FailedTryTouchesNothing | MySQL-5.7.28 x32/include/thr_rwlock.h:90-122 | from the call of a try to its EBUSY return, no event of its thread changes the slim lock, the flag or what anybody holds, whatever other threads do in between |
| RwLock.QuiescentIsInitial | MySQL-5.7.28 x32/include/thr_rwlock.h:59-64 | when nobody is in a call and nobody holds, the slim lock is free and the flag down |
| RwLock.BlockedOnlyByHolder | MySQL-5.7.28 x32/include/thr_rwlock.h:80-138 | a thread that cannot move is waiting to acquire and some thread holds the lock in a conflicting mode |
| RwLock.StepRefines | MySQL-5.7.28 x32/include/thr_rwlock.h:80-138 | every statement is its labelled step of an abstract reader/writer lock: the acquire of a read call takes a share, that of a write call takes the only lock, the release of unlock gives up what was held when it was called, all else is invisible |
| RwLock.RunRefines | MySQL-5.7.28 x32/include/thr_rwlock.h:80-138 | every run of the statement machine is a run of the abstract lock, event by event with those labels |
| RwLock.CallsAreAchievable | MySQL-5.7.28 x32/include/thr_rwlock.h:80-138 | whenever the holders allow an abstract step, an idle thread can begin the call for it and, running alone, completes the call with that step |
| RwLock.NativeRwLock.constructor | MySQL-5.7.28 x32/include/thr_rwlock.h:59-69 | initialisation gives an initial state |
| RwLock.NativeRwLock.BeginCall | MySQL-5.7.28 x32/include/thr_rwlock.h:80-138 | entering a call in place is the machine's event and keeps the invariant; what call is then made is the subject of `CallIsTheOneBegun` and `EveryCallKeepsItsPromise` |
| RwLock.NativeRwLock.Execute | MySQL-5.7.28 x32/include/thr_rwlock.h:80-138 | executing one statement in place is the machine's event and keeps the invariant |
| Mutex.StepInv | MySQL-5.7.28 x32/include/thr_mutex.h:85-121 | no statement of any thread breaks the invariant tying owner and recursion count to what each call has done so far |
| Mutex.OthersKeepTheirDepth | MySQL-5.7.28 x32/include/thr_mutex.h:85-121 | no thread's holding is changed by another thread's statement |
| Mutex.RunInv | MySQL-5.7.28 x32/include/thr_mutex.h:74-121 | every state of every run satisfies the invariant |
| Mutex.ToldIsKnownDepth | MySQL-5.7.28 x32/include/thr_mutex.h:85-121 | in every run the client's own count, successful lock and try returns less unlock calls, is what the machine has told it: never negative, never above its depth in the critical section, equal to it outside calls |
| Mutex.MutualExclusion | MySQL-5.7.28 x32/include/thr_mutex.h:85-121 | by those counts no two threads hold the mutex at once, and the critical section is never left by a thread not owning it |
| Mutex.CallIsTheOneBegun | MySQL-5.7.28 x32/include/thr_mutex.h:85-121 | until a thread begins another call, the call it is in is the one it began, with the depth it then had |
| Mutex.EveryCallWasBegun | MySQL-5.7.28 x32/include/thr_mutex.h:85-121 | every thread in a call has begun it |
| Mutex.EveryCallKeepsItsPromise | MySQL-5.7.28 x32/include/thr_mutex.h:85-121 | compared with the depth when it was begun, lock adds one, unlock takes one, a successful try leads from not holding to holding with recursion count 1, a refused try leaves the depth as it was, however deep |
| Mutex.CallsComeBack | MySQL-5.7.28 x32/include/thr_mutex.h:85-121 | every statement of its own brings a call nearer its return, and it is over after at most 2 of them for a lock or an unlock and 4 for a try |
| Mutex.TryAndUnlockNeverWait | MySQL-5.7.28 x32/include/thr_mutex.h:95-121 | from its begin to its return a try or an unlock can always take its next step |
| Mutex.VerdictStands | MySQL-5.7.28 x32/include/thr_mutex.h:98-107 | once a try has entered, no statement of any thread changes how it will end |
| Mutex.TryEntersFirst | MySQL-5.7.28 x32/include/thr_mutex.h:98-98 | with its first statement a try enters the critical section whenever no other thread holds the mutex, also when its own thread does, and otherwise leaves it alone |
| Mutex.TryDecidesOnEntry | MySQL-5.7.28 x32/include/thr_mutex.h:95-107 | a begun try, whatever happens between its first statement and its return, succeeds exactly when nobody, the caller included, held the mutex at that first statement |
| Mutex.BlockedOnlyByHolder | MySQL-5.7.28 x32/include/thr_mutex.h:85-121 | a thread that cannot move is at the entry of lock, and another thread holds |
| Mutex.StepRefines | MySQL-5.7.28 x32/include/thr_mutex.h:85-121 | every statement is its labelled step of an abstract non-recursive-try mutex; the temporary entry of a refused try is invisible |
| Mutex.RunRefines | MySQL-5.7.28 x32/include/thr_mutex.h:85-121 | every run is a run of the abstract mutex |
| Mutex.CallsAreAchievable | MySQL-5.7.28 x32/include/thr_mutex.h:85-121 | whenever the abstract mutex allows a call, an idle thread can begin it and, running alone, completes it with that step |
| Mutex.NativeMutex.constructor | MySQL-5.7.28 x32/include/thr_mutex.h:74-83 | initialisation gives an initial state |
| Mutex.NativeMutex.BeginCall | MySQL-5.7.28 x32/include/thr_mutex.h:85-121 | entering a call in place is the machine's event and keeps the invariant; what call is then made is the subject of `CallIsTheOneBegun` and `EveryCallKeepsItsPromise` |
| Mutex.NativeMutex.Execute | MySQL-5.7.28 x32/include/thr_mutex.h:85-121 | executing one statement in place is the machine's event and keeps the invariant |
| SkipSpace.TrimmedLenExact | MySQL-5.7.28 x32/include/m_string.h:279-281 | the naive scan ends at the one position with only bytes 0x20 after it and another byte just before |
| SkipSpace.EightSpaces | MySQL-5.7.28 x32/include/m_string.h:326-327 | an eight-byte load equals the mask exactly when all eight bytes are spaces |
| SkipSpace.SkipTrailingSpace8 | MySQL-5.7.28 x32/include/m_string.h:321-333 | for every string and address the eight-byte version ends where the naive scan does, reading only inside the string |
| SkipSpace.WordBoundaries | MySQL-5.7.28 x32/include/m_string.h:299-302 | sign extension, division and truncation of the addresses give the enclosing multiples of the word size |
| SkipSpace.StartWordsIsMyAlign | MySQL-5.7.28 x32/include/m_string.h:301-302 | rounding the start up by division is the alignment macro, for every 32-bit address |
| SkipSpace.FourSpaces | MySQL-5.7.28 x32/include/m_string.h:308-308 | a word load in either byte order equals the mask exactly when its four bytes are spaces |
| SkipSpace.SkipSpaceWords | MySQL-5.7.28 x32/include/m_string.h:307-309 | the word loop drops only spaces, never goes below the first word boundary, and reads only aligned words inside the string |
| SkipSpace.SkipTrailingSpaceAligned | MySQL-5.7.28 x32/include/m_string.h:284-314 | for every string that fits the address space, on hosts of either byte order, the word version ends where the naive scan does; every word read is aligned and inside the string |
| Align.MyAlignExact | MySQL-5.7.28 x32/include/my_global.h:462-462 | for every operand and power of two MY_ALIGN is the least multiple not below the operand exactly when the addition does not overflow, and then equals the division form |
| Align.AlignOverflowExample | MySQL-5.7.28 x32/include/my_global.h:462-462 | 2^32 - 1 rounded up to a word on a 32-bit size becomes zero |
| Align.MyAlignIdempotent | MySQL-5.7.28 x32/include/my_global.h:462-462 | aligning twice is aligning once, overflow or not |
| Align.MyAlignMonotoneExactly | MySQL-5.7.28 x32/include/my_global.h:462-462 | aligning keeps the order of two operands exactly when the greater does not overflow, or the smaller does too or is zero |
| Codec.FromLEToLE | MySQL-5.7.28 x32/include/my_byteorder.h:32-36 | decoding an encoding gives the number modulo 256^width |
| Codec.ToLEFromLE | MySQL-5.7.28 x32/include/my_byteorder.h:32-36 | encoding a decoding gives the bytes back |
| ByteOrder.Uint2korr | MySQL-5.7.28 x32/include/byte_order_generic.h:45-51 | the load is the low-byte-first value of two bytes |
| ByteOrder.Sint2korr | MySQL-5.7.28 x32/include/byte_order_generic.h:27-33 | the load is the two's-complement value of two bytes |
| ByteOrder.Uint3korr | MySQL-5.7.28 x32/include/my_byteorder.h:57-64 | the load is the low-byte-first value of three bytes |
| ByteOrder.Sint3korr | MySQL-5.7.28 x32/include/my_byteorder.h:43-55 | the or-ed bytes are the two's-complement value of three bytes |
| ByteOrder.Sint3Exact | MySQL-5.7.28 x32/include/my_byteorder.h:43-94 | sign extension from 24 bits: in range, congruent to the unsigned load, and the inverse of the store on that range |
| ByteOrder.Uint4korr | MySQL-5.7.28 x32/include/byte_order_generic.h:53-61 | the load is the low-byte-first value of four bytes |
| ByteOrder.Sint4korr | MySQL-5.7.28 x32/include/byte_order_generic.h:35-43 | the load is the two's-complement value of four bytes |
| ByteOrder.Uint5korr | MySQL-5.7.28 x32/include/my_byteorder.h:66-75 | the load is the low-byte-first value of five bytes |
| ByteOrder.Uint6korr | MySQL-5.7.28 x32/include/my_byteorder.h:77-87 | the load is the low-byte-first value of six bytes |
| ByteOrder.Uint8korr | MySQL-5.7.28 x32/include/byte_order_generic.h:63-76 | the two 32-bit halves lose no carry: the load is the low-byte-first value of eight bytes |
| ByteOrder.Sint8korr | MySQL-5.7.28 x32/include/byte_order_generic.h:78-81 | the load is the two's-complement value of eight bytes |
| ByteOrder.TwoByteLoadsAgreeWithDirect | MySQL-5.7.28 x32/include/byte_order_generic_x86.h:34-41 | on a little-endian host the two-byte loads equal the direct ones for all bytes |
| ByteOrder.FourByteLoadsAgreeWithDirect | MySQL-5.7.28 x32/include/byte_order_generic_x86.h:37-44 | likewise the four-byte loads |
| ByteOrder.EightByteLoadsAgreeWithDirect | MySQL-5.7.28 x32/include/byte_order_generic_x86.h:46-50 | likewise the eight-byte loads |
| ByteOrder.Int2Store | MySQL-5.7.28 x32/include/byte_order_generic.h:83-88 | writes the two-byte encoding at the offset and nothing else |
| ByteOrder.Int3Store | MySQL-5.7.28 x32/include/my_byteorder.h:89-94 | writes the three-byte encoding of the low 24 bits and nothing else |
| ByteOrder.Int4Store | MySQL-5.7.28 x32/include/byte_order_generic.h:90-96 | writes the four-byte encoding and nothing else |
| ByteOrder.Int5Store | MySQL-5.7.28 x32/include/my_byteorder.h:96-103 | writes the five-byte encoding of the low 40 bits and nothing else |
| ByteOrder.Int6Store | MySQL-5.7.28 x32/include/my_byteorder.h:105-113 | writes the six-byte encoding of the low 48 bits and nothing else |
| ByteOrder.Int8Store | MySQL-5.7.28 x32/include/byte_order_generic.h:98-104 | two four-byte stores write the eight-byte encoding and nothing else |
| ByteOrder.DirectStore | MySQL-5.7.28 x32/include/byte_order_generic_x86.h:52-68 | the direct stores write what the generic ones write |
| ByteOrder.StoreField | MySQL-5.7.28 x32/include/my_byteorder.h:89-113 | the store of each width, its argument cut to the parameter type, writes the encoding of the value |
| ByteOrder.LoadField | MySQL-5.7.28 x32/include/my_byteorder.h:57-87 | the unsigned load of each width decodes its bytes |
| ByteOrder.StoreFields | MySQL-5.7.28 x32/include/my_byteorder.h:89-113 | storing a list of fields in place leaves the buffer the next two rows speak of |
| ByteOrder.StoreAllReadsBack | MySQL-5.7.28 x32/include/my_byteorder.h:57-113 | any number of fields stored in any order at disjoint places all read back modulo 256^width, and no other byte changes |
| ByteOrder.RecordRoundTrip | MySQL-5.7.28 x32/include/my_byteorder.h:57-113 | fields written one after another read back one by one; what precedes and follows the record is untouched |
| HostOrder.Float8ImageIsPortable | MySQL-5.7.28 x32/include/little_endian.h:51-69 | float8store leaves the portable image exactly when the machine does not exchange words or they are equal; the bi-endian doublestore always does |
| HostOrder.Float8AcrossMachines | MySQL-5.7.28 x32/include/big_endian.h:42-62 | a double stored on one machine and read on another survives exactly when both or neither exchange words, or its words are equal |
| HostOrder.Float8NotPortableExample | MySQL-5.7.28 x32/include/little_endian.h:46-54 | the double 1.0 stored with float8store on word-exchanging hardware is another number on a little-endian host |
| HostOrder.DoubleAcrossMachines | MySQL-5.7.28 x32/include/little_endian.h:61-85 | doublestore and doubleget are inverse on every machine, the word-exchanging pair included; across machines a double survives exactly when both or neither are big-endian or its bytes are a palindrome |
| HostOrder.Float4AcrossHosts | MySQL-5.7.28 x32/include/big_endian.h:28-40 | a float stored on either host leaves the same image, and float4get of either host reads it back |
| HostOrder.HostOrderAcrossHosts | MySQL-5.7.28 x32/include/big_endian.h:64-92 | a short or long stored on one host reads back on another exactly when the hosts agree in byte order or the bytes are a palindrome |
| BigEndianHost.Float4Store | MySQL-5.7.28 x32/include/big_endian.h:28-32 | writes the host's float4store image and nothing else |
| BigEndianHost.Float4Get | MySQL-5.7.28 x32/include/big_endian.h:34-40 | reads the float whose float4store image the bytes are |
| BigEndianHost.Float8Store | MySQL-5.7.28 x32/include/big_endian.h:42-50 | writes the machine's float8store image and nothing else |
| BigEndianHost.Float8Get | MySQL-5.7.28 x32/include/big_endian.h:52-62 | reads the double whose float8store image the bytes are |
| BigEndianHost.UShortGet | MySQL-5.7.28 x32/include/big_endian.h:64-66 | reads the big-endian object value |
| BigEndianHost.ShortGet | MySQL-5.7.28 x32/include/big_endian.h:67-69 | reads the signed big-endian object value |
| BigEndianHost.ULongGet | MySQL-5.7.28 x32/include/big_endian.h:77-83 | reads the big-endian object value |
| BigEndianHost.LongGet | MySQL-5.7.28 x32/include/big_endian.h:70-76 | reads the signed big-endian object value |
| BigEndianHost.ShortStore | MySQL-5.7.28 x32/include/big_endian.h:84-87 | writes the big-endian object of a signed short |
| BigEndianHost.LongStore | MySQL-5.7.28 x32/include/big_endian.h:88-92 | the arithmetic shifts write the big-endian object of a signed long |
| BigEndianHost.DoubleStore | MySQL-5.7.28 x32/include/big_endian.h:109-112 | writes the machine's doublestore image and nothing else |
| BigEndianHost.DoubleGet | MySQL-5.7.28 x32/include/big_endian.h:104-107 | reads the double whose doublestore image the bytes are |
| LittleEndianHost.Float4Store | MySQL-5.7.28 x32/include/little_endian.h:41-44 | writes the host's float4store image and nothing else |
| LittleEndianHost.Float4Get | MySQL-5.7.28 x32/include/little_endian.h:36-39 | reads the float whose float4store image the bytes are |
| LittleEndianHost.Float8Store | MySQL-5.7.28 x32/include/little_endian.h:51-54 | writes the machine's float8store image, on plain and word-exchanging hardware |
| LittleEndianHost.Float8Get | MySQL-5.7.28 x32/include/little_endian.h:46-49 | reads the double whose float8store image the bytes are |
| LittleEndianHost.DoubleStore | MySQL-5.7.28 x32/include/little_endian.h:61-84 | writes the machine's doublestore image, words exchanged on bi-endian hardware |
| LittleEndianHost.DoubleGet | MySQL-5.7.28 x32/include/little_endian.h:70-85 | reads the double whose doublestore image the bytes are, words exchanged back on bi-endian hardware |
| LittleEndianHost.ShortStore | MySQL-5.7.28 x32/include/little_endian.h:93-93 | writes the little-endian object of a signed short |
| LittleEndianHost.ShortGet | MySQL-5.7.28 x32/include/little_endian.h:90-90 | reads the signed little-endian object value |
| LittleEndianHost.LongStore | MySQL-5.7.28 x32/include/little_endian.h:94-94 | writes the little-endian object of a signed long |
| LittleEndianHost.LongGet | MySQL-5.7.28 x32/include/little_endian.h:91-91 | reads the signed little-endian object value |
| LittleEndianHost.SignedHostRoundTrip | MySQL-5.7.28 x32/include/little_endian.h:90-94 | signed shorts and longs survive store and get on either host |
| Deadline.SetTimespecNsec | MySQL-5.7.28 x32/include/my_global.h:723-731 | leaves the deadline of `FileWaitExact` and the bound of `WaitBoundExact` |
| Deadline.SetTimespec | MySQL-5.7.28 x32/include/my_global.h:735-738 | the same for a timeout in seconds, whose nanoseconds are taken modulo 2^64 |
| Deadline.GetMilliseconds | MySQL-5.7.28 x32/include/thr_cond.h:61-90 | infinite without a deadline, else the bounded wait; the last clamp is never taken, and a negative bound set by hand becomes a huge wait |
| Deadline.WaitBoundExact | MySQL-5.7.28 x32/include/my_global.h:723-730 | the bound is the timeout in whole milliseconds, up to 2147483647 of them |
| Deadline.FileWaitExact | MySQL-5.7.28 x32/include/thr_cond.h:74-90 | whatever the clock does, the wait is between 0 and min(nsec/10^6, 2147483647), is that bound if the clock stood still, and is the time really left up to it exactly when the ticks left do not overflow or the timeout is under a millisecond; on overflow there is no wait |
| Deadline.NeverGrowsExactly | MySQL-5.7.28 x32/include/thr_cond.h:80-85 | the wait never grows as the clock advances exactly when the deadline does not overflow or the timeout is under a millisecond |
| Deadline.CorrectedClockExample | MySQL-5.7.28 x32/include/thr_cond.h:67-85 | a deadline built while the clock stood late in the year 30827 is not waited for once the clock is corrected to 2024, and is waited for its whole bound when it is late again |
| Deadline.UsualClocksAreSafe | MySQL-5.7.28 x32/include/thr_cond.h:67-90 | for deadlines built before about the year 30240 no timeout overflows: the wait is the time really left up to the bound, and never grows |
| Deadline.SecondsExactly | MySQL-5.7.28 x32/include/my_global.h:735-738 | a timeout in seconds becomes the right number of ticks exactly up to 18446744073 seconds; its nanoseconds are taken modulo 2^64 |
| Deadline.SecondsOverflowExample | MySQL-5.7.28 x32/include/my_global.h:735-738 | one second more becomes 290 ms |
| Deadline.TimespecDeadline | MySQL-5.7.28 x32/include/my_global.h:714-721 | the deadline is normalised and its total is that of the wrapped tick count |
| Deadline.StoreTimespecNsec | MySQL-5.7.28 x32/include/my_global.h:711-721 | leaves that deadline |
| Deadline.TimespecExactly | MySQL-5.7.28 x32/include/my_global.h:714-721 | the deadline is the requested instant to the nanosecond exactly when the tick count does not overflow, so for every clock reading below 2^63; on overflow it is 2^64 ticks early |
| Deadline.GetMillisecondsTimespec | MySQL-5.7.28 x32/include/thr_cond.h:96-101 | returns the wait of the deadline at the clock reading |
| Deadline.TimespecWaitExact | MySQL-5.7.28 x32/include/thr_cond.h:96-101 | at any clock reading the wait is the milliseconds left exactly when they fit 32 bits, and infinite exactly when they are congruent to 2^32 - 1 |
| Deadline.TimespecSameClock | MySQL-5.7.28 x32/include/thr_cond.h:96-101 | at the clock it was built at the wait is the timeout in milliseconds, plus one exactly when the fractions of clock and timeout add up to one, exactly when that is below 2^32; it is infinite exactly when that is congruent to 2^32 - 1 |
| Deadline.FiniteTimeoutWaitsForever | MySQL-5.7.28 x32/include/thr_cond.h:96-101 | at every clock reading a timeout of 4294967295 ms is waited for without end |
| Deadline.LongTimeoutDoesNotWait | MySQL-5.7.28 x32/include/thr_cond.h:96-101 | at every clock reading a timeout of 4294967296 ms is not waited for at all |
| Deadline.WaitNeverGrowsExactly | MySQL-5.7.28 x32/include/thr_cond.h:96-101 | from any clock reading on the wait never grows as the clock advances exactly when fewer than 2^32 ms are left then |
| Deadline.WaitNeverGrowsOnceBuilt | MySQL-5.7.28 x32/include/thr_cond.h:96-101 | from the reading the deadline was built at, exactly when the timeout in milliseconds is below 2^32 |
| Deadline.WaitGrowsExample | MySQL-5.7.28 x32/include/thr_cond.h:96-101 | at every clock reading, the timeout of 4294967296 ms that is not waited for is waited for without end a millisecond later |
| Deadline.CmpTimespec | MySQL-5.7.28 x32/include/my_global.h:747-763 | on normalised values the answer is the sign of the exact difference |
| Deadline.CmpIsTotalOrder | MySQL-5.7.28 x32/include/my_global.h:740-763 | the comparison is a total order, equal only on equal values, normalised or not |
| Deadline.FileTimeCoarsens | MySQL-5.7.28 x32/include/my_global.h:757-760 | from any one clock reading, file times are equal exactly when the timeouts share a tick, otherwise compare as the exact deadlines do exactly when both or neither overflow, and the wrong way round when one does |
| Deadline.FileTimeOrderExample | MySQL-5.7.28 x32/include/my_global.h:757-760 | late in the year 30827 the longest timeout compares as ending before one that ends at once |
| Deadline.DiffIsExactModulo | MySQL-5.7.28 x32/include/my_global.h:767-769 | the difference is exact modulo 2^64, normalised or not |
| Deadline.FileTimeDiff | MySQL-5.7.28 x32/include/my_global.h:771-771 | from any one clock reading, whether or not the deadlines overflow, the file-time difference is that of the timeouts rounded down to ticks, modulo 2^64, less than 100 ns off |
| IoCache.Cache.Read | MySQL-5.7.28 x32/include/my_sys.h:506-510 | served from the buffer exactly when the bytes are there; then delivers the next unread bytes; position plus bytes in cache is constant; otherwise nothing changes |
| IoCache.Cache.Get | MySQL-5.7.28 x32/include/my_sys.h:518-521 | likewise for one byte |
| IoCache.Cache.Write | MySQL-5.7.28 x32/include/my_sys.h:512-516 | appended exactly when it fits; the position advances by its length; otherwise nothing changes |
| IoCache.Cache.PositionsExact | MySQL-5.7.28 x32/include/my_sys.h:523-537 | `my_b_bytes_in_cache` is the number of bytes still to be read, or the room left for writing; `my_b_tell` is the position of the requested byte plus the bytes passed since |
| IoCache.ReadRunExact | MySQL-5.7.28 x32/include/my_sys.h:506-521 | however reads divide the buffer, their outputs and the rest are the buffered bytes in order, and all are served exactly when the total fits |
| IoCache.WriteRunExact | MySQL-5.7.28 x32/include/my_sys.h:512-516 | however writes are divided, the buffer holds their concatenation, all of them exactly when the total fits |
| IoCache.Cache.RunReads | MySQL-5.7.28 x32/include/my_sys.h:506-537 | a list of reads on a cache delivers, call by call, what the next rows speak of, and `my_b_tell` plus `my_b_bytes_in_cache` is constant over the whole run |
| IoCache.Cache.RunWrites | MySQL-5.7.28 x32/include/my_sys.h:512-524 | a list of writes leaves the concatenation of those that fit, and `my_b_tell` advances by their total length |
| IoCache.ReadDivisionDoesNotMatter | MySQL-5.7.28 x32/include/my_sys.h:506-521 | reads that ask for as much in all and fit deliver the same bytes and leave the same unread, however they are divided |
| IoCache.WriteDivisionDoesNotMatter | MySQL-5.7.28 x32/include/my_sys.h:512-516 | writes of the same bytes that fit leave the same buffer, however they are divided |
| SslOptions.OptionVariables.constructor | MySQL-5.7.28 x32/include/sslopt-vars.h:38-49 | the variables start as after an empty command line |
| SslOptions.OptionVariables.HandleOption | MySQL-5.7.28 x32/include/sslopt-case.h:29-64 | each case updates the variables to what the command line so far determines |
| SslOptions.OptionVariables.SetClientSslOptions | MySQL-5.7.28 x32/include/sslopt-vars.h:51-76 | the warning and the connection settings are those of the variables, which `ConnectionExact` gives for every command line |
| SslOptions.ConnectionExact | MySQL-5.7.28 x32/include/sslopt-vars.h:51-76 | for every command line the connection is given, kind by kind, the argument of the last such option, the CA and CA path only if the server is verified, and the final mode; the warning is given exactly when a mode and a CA were given and the server is not verified |
| SslOptions.FinalMode | MySQL-5.7.28 x32/include/sslopt-case.h:29-57 | without deprecated options the mode is the last one named, else VERIFY_CA if a CA was given, else PREFERRED |
| SslOptions.CaOrderDoesNotMatter | MySQL-5.7.28 x32/include/sslopt-case.h:52-57 | how CA options are interleaved with mode options does not matter |
| SslOptions.ModeExactly | MySQL-5.7.28 x32/include/sslopt-case.h:29-57 | for every command line the final mode is at a level or above exactly when it started there or an option lifts it there and no later option lowers it below; a CA option counts only with no mode named before it |
| SslOptions.VerifiedExactly | MySQL-5.7.28 x32/include/sslopt-case.h:29-57 | so the server is verified exactly when `--ssl-verify-server-cert`, a verifying mode, or a CA with no mode named before it is given and neither `--ssl` is turned off nor a lesser mode named after it |
| SslOptions.UnchosenMode | MySQL-5.7.28 x32/include/sslopt-case.h:34-57 | with no mode named, and deprecated options allowed, the server is verified exactly when something raised the mode and `--ssl` was not turned off after it for good |
| SslOptions.CaDroppedSilently | MySQL-5.7.28 x32/include/sslopt-vars.h:57-71 | a given CA is used or warned about exactly when a mode was named or `--ssl` was not turned off with nothing raising the mode after it |
| SslOptions.CaAccountedForUnlessTurnedOff | MySQL-5.7.28 x32/include/sslopt-vars.h:57-71 | so always if `--ssl` is never turned off |
| SslOptions.CaDroppedExample | MySQL-5.7.28 x32/include/sslopt-case.h:34-57 | giving a CA and turning `--ssl` off and on again requires encryption but drops the CA without a warning |

## Left out

- The MQLMySQL library itself, its cursors, connections and scripts: only its export list is in the repository.
- Weak memory orders: the lock machines interleave statements under sequential consistency.
- Fairness and wake-up order of the operating system's locks; condition variables beyond the timeout they are given.
- Recursion counts beyond a 32-bit LONG in the critical section.
- The `pthread` branches of the lock wrappers, and `rw_pr_*`, `safe_mutex_*`: foreign calls or declared without bodies.
- The 8-byte-word variant of the aligned space scan: the configuration has 4-byte ints.
- The clamp of seconds for a 4-byte `time_t` in `set_timespec_nsec`: the configuration has an 8-byte one.
- Deadline.GetMillisecondsTimespec: does not model a null deadline, which this branch of the code dereferences.
- Deadline.SetTimespecNsec: models the branch for a 4-byte `long` only, the configured one.
- Deadline.SetTimespec: the file-time form only; for the other form the same product of seconds is passed to `StoreTimespecNsec`.
- SkipSpace.SkipTrailingSpaceAligned: its byte and word loops are methods of their own (`SkipSpaceBytes`, `SkipSpaceWords`), called where the code has them inline.
- IoCache.Cache.Read: reports that the slow path is needed instead of modelling the foreign `read_function`, and likewise for writing and single bytes; file positions are unbounded.
- Floating-point values: only their byte images are modelled, not their rounding.
- SslOptions.OptionVariables.HandleOption: takes the mode that `find_type_or_exit` chose; matching of mode names and prefixes is foreign, as are the deprecation messages.
- The C++ overloads of the codec, and the host-order `float` and `longlong` accessors: they only convert pointers or copy memory.
- IoCache.Cache.RunReads, IoCache.Cache.RunWrites, ByteOrder.StoreFields: stand for a caller's sequence of calls; the headers hold the single calls. What happens between a write cache and a later read of its file is foreign.
- The 8.0.18 headers, error tables, plugin descriptors and enumerations: data.
