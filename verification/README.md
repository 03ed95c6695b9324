# A verified model of the bundled headers

Basic Translation Infrastructure ships a few third-party headers that hold
complete algorithms. This project models six of them in Dafny 4.11 and proves
what they promise:

- `Words`, `Md5Rounds`, `Md5Digits`, `Md5Codec`, `Md5Spec`, `Md5`,
  `Md5Permutation`, `Md5Hexadecimal`, `Md5Width`, `Md5Example` - the streaming
  MD5 digest of `ext/md5.hpp`. The reference is RFC 1321, sections 3.1 to 3.5,
  down to the digest of `abc` in its section A.5. The class `MD5` keeps its
  arrays; every way of cutting a message into `Update` calls gives the digest of
  the whole.
- `Buffers` - scatter/gather copying (`ext/asio/buffer.hpp`). Memory is one
  array, a buffer is a view into it, and a buffer sequence names addresses.
- `BuffersIterators` - the random-access iterator over a buffer sequence
  (`ext/asio/buffers_iterator.hpp`), against a search from the front.
- `Streambufs` - the growing stream buffer (`ext/asio/basic_streambuf.hpp`),
  refined from a bounded queue.
- `SocketStreambufs` - the socket stream buffer
  (`ext/asio/basic_socket_streambuf.hpp`) over any schedule of partial
  transfers; `SocketTransfers` says what a schedule and the timer let through.
- `IniText`, `IniLaws`, `IniPrint`, `IniSaved`, `IniStream`, `IniExact`,
  `IniMerge`, `Ini` - the INI parser, printer and merge (`ext/INI.h`): the
  meaning of a text on values and in characters, what a saved text looks like,
  when the reading loop ends, the exact condition of the text round trip, and
  the object with its heap-allocated key maps.

`dafny verify dfyconfig.toml` checks everything.

## How the code is modelled

Unsigned arithmetic is written on integers with the wrap-around explicit;
`x >> n` is division and the bitwise operators are defined digit by digit.
Objects whose methods assign to their fields are classes, and each method is
proved against functions on values. Calls into the operating system are
parameters: `DigestFile` takes what the reads deliver, the socket takes a
schedule of completions, and hash-map iteration takes an order that lists every
key once, so that a result holds for every order.

## Where the code differs from its documentation

- `UINT4` is described as a four byte word but typed `unsigned long`
  (ext/md5.hpp:98-99). The digest results are for four bytes. With eight, the
  rotation macro lets carries back into the low word: `Md5Width.WideRotateExact`
  says exactly when that does no harm, and `Md5Width.FirstLines` that it does
  harm in the very first line of the message `a`.
- `reserve` shifts the contents before it may throw and leaves the pointers
  where they were (ext/asio/basic_streambuf.hpp:312-331), so a failed `prepare`
  can corrupt the input sequence: `Streambufs.FailedPrepareCorrupts` does it, and
  `Streambufs.FailedReserve` says exactly when it cannot happen. A failed
  `overflow` never does it.
- A flush that fails part way leaves the whole put area pending, so that a retry
  repeats what had gone out (`SocketStreambufs.SyncAgain`, and on one input
  `SocketStreambufs.RepeatedPrefix`), and `close` reports only the close: after a
  failed flush it can succeed and drop the rest (`SocketStreambufs.LostOnClose`).
- The INI constructors leave `current` unset (ext/INI.h:153-161); the model takes
  null. `get` dereferences it before it tests it (ext/INI.h:224-230).
- A repeated header forgets the section's old map without deleting it
  (ext/INI.h:296-302); `Ini.INI.Parse` counts these.
- A line of more than 1023 characters makes `getline` fail without reaching the
  end of the file, so that the loop of `parse` never ends (`IniStream.NeverEnds`,
  `IniStream.EndsExact`).

## Model

| member | source | states |
|---|---|---|
| `Md5Digits.FChooses` | ext/md5.hpp:58 | digit k of F(x, y, z), for all words and k < 32: y's where x has the digit 1, else z's |
| `Md5Digits.GChooses` | ext/md5.hpp:59 | digit k of G(x, y, z): x's where z has the digit 1, else y's |
| `Md5Digits.HIsParity` | ext/md5.hpp:60 | digit k of H(x, y, z): the parity of the three |
| `Md5Digits.IFlips` | ext/md5.hpp:61 | digit k of I(x, y, z): y's, flipped where x has the digit 1 or z the digit 0 |
| `Md5Digits.SameDigits` | ext/md5.hpp:58-61 | the digits determine a word, so that these tables determine the four functions |
| `Md5Rounds.FFStep` | ext/md5.hpp:68-72 | a first-round macro line computes RFC 1321's step `a = b + ((a + F(b,c,d) + X[k] + T[i]) <<< s)` for step j and rotates the register roles |
| `Md5Rounds.GGStep` | ext/md5.hpp:73-77 | the same for round 2, with word index `(1 + 5j) mod 16` |
| `Md5Rounds.HHStep` | ext/md5.hpp:78-82 | the same for round 3, with word index `(5 + 3j) mod 16` |
| `Md5Rounds.IIStep` | ext/md5.hpp:83-87 | the same for round 4, with word index `7j mod 16` |
| `Md5Rounds.Round1` | ext/md5.hpp:123-139 | the 16 unrolled lines of round 1 are steps 1 to 16 of the table-driven description |
| `Md5Rounds.Round2` | ext/md5.hpp:141-157 | the 16 unrolled lines of round 2 are steps 17 to 32 |
| `Md5Rounds.Round3` | ext/md5.hpp:159-175 | the 16 unrolled lines of round 3 are steps 33 to 48 |
| `Md5Rounds.Round4` | ext/md5.hpp:177-193 | the 16 unrolled lines of round 4 are steps 49 to 64 |
| `Md5Permutation.RotateBack` | ext/md5.hpp:63-64 | rotating a 32-bit word left by n and then by 32 - n gives it back |
| `Md5Permutation.UnstepsSteps` | ext/md5.hpp:64-193 | for a fixed block the steps are one-to-one: each final 128-bit state determines its initial one |
| `Md5Permutation.StepsUnsteps` | ext/md5.hpp:64-193 | for a fixed block the steps are onto: every 128-bit state is reached |
| `Md5Width.WideRotateExact` | ext/md5.hpp:63-99 | with a 64-bit `unsigned long`, for each high and low word: ROTATE_LEFT gives the 32-bit rotation of the low word if and only if every binary digit of the high word's 32 - n low ones is set in the low word too |
| `Md5Width.WideRotates` | ext/md5.hpp:63-99 | what the macro computes on 64 bits: the low word rotated with the high word's low digits or-ed into what moves left |
| `Md5Width.CarrySpoilsEven` | ext/md5.hpp:63-99 | after an addition that carried once, the macro rotates exactly the odd sums as it should |
| `Md5Width.FirstLines` | ext/md5.hpp:68-72 | on 64 bits the first macro line of the message `a` has the sum 0x1d76b24d8 and rotates it wrongly; that of the empty message has 0x1d76aa4f7 and rotates it rightly despite its carry |
| `Md5Hexadecimal.MixesMix` | ext/md5.hpp:58-61 | words mix as their hexadecimal digits do, by the truth tables alone |
| `Md5Hexadecimal.StepIs` | ext/md5.hpp:68-87 | what one step does to given words, checked by sums and truth tables |
| `Md5Example.DigestOfAbc` | ext/md5.hpp:118-202 | the digest of `abc` is the one RFC 1321 prints, 900150983cd24fb0d6963f7d28e17f72, through all 64 constants, shifts and words |
| `Md5Example.RunOnAbc` | ext/md5.hpp:365-371 | so the program stores it for these three bytes |
| `Md5Codec.Encode` | ext/md5.hpp:207-216 | writes each word as four bytes, low-order first, and touches nothing behind `len` |
| `Md5Codec.Decode` | ext/md5.hpp:221-227 | the `|` of the four shifted bytes packs them little-endian into a word |
| `Md5Codec.UnpackBytes` | ext/md5.hpp:204-227 | Decode undoes Encode, for every list of words |
| `Md5Codec.BytesUnpack` | ext/md5.hpp:204-227 | Encode undoes Decode, for every byte string whose length is a multiple of 4 |
| `Md5Spec.AbsorbAppend` | ext/md5.hpp:273-279 | absorbing blocks is a fold: splitting a block sequence anywhere gives the same state |
| `Md5Spec.ZeroCountLeast` | ext/md5.hpp:301-304 | the number of zero bytes in the padding is the least that reaches 56 modulo 64 |
| `Md5Spec.CounterBytes` | ext/md5.hpp:298-299 | the two counter words pack into the 64-bit little-endian bit count |
| `Md5Spec.StateBytesInjective` | ext/md5.hpp:309-310 | different final states give different digests |
| `Md5.MD5Transform` | ext/md5.hpp:118-202 | in place, the state becomes the RFC's block function of the old state and the 64 bytes at the pointer |
| `Md5.NoWrapExact` | ext/md5.hpp:278-279 | the 32-bit test `i + 63 < inputLen` stops the loop at its end exactly when that sum does not wrap; 2^32 - 64 bytes at a time are always safe |
| `Md5.WrapsAfterOne` | ext/md5.hpp:278-279 | 2^32 - 1 bytes after a single one make the test wrap; fed first, no input does |
| `Md5.LoopTest` | ext/md5.hpp:278-279 | at every block boundary reached, the wrapped test says whether another whole block fits |
| `Md5.CarryAdds` | ext/md5.hpp:266-269 | the carry test and the `>> 29` together add 8 * inputLen to the 64-bit counter modulo 2^64 |
| `Md5.BitCounter` | ext/md5.hpp:263-269 | the two words stay the low and high word of 8 times the bytes fed, modulo 2^64 |
| `Md5.IndexIsLength` | ext/md5.hpp:263 | the counter's low word still gives the length modulo 64, although it wraps |
| `Md5.PaddingIsPadded` | ext/md5.hpp:301-307 | the message, the pad bytes and the length bytes are RFC 1321's padded message (sections 3.1 and 3.2) |
| `Md5.MD5.constructor` | ext/md5.hpp:234-236 | a new context is one that has been fed nothing |
| `Md5.MD5.Init` | ext/md5.hpp:241-249 | begins a message: nothing fed, counter 0, the RFC's initial state |
| `Md5.MD5.Index` | ext/md5.hpp:262-263 | the buffer index is the number of bytes fed modulo 64 |
| `Md5.MD5.AddBits` | ext/md5.hpp:265-269 | in place, the counter grows by 8 * inputLen modulo 2^64 |
| `Md5.MD5.Update` | ext/md5.hpp:256-287 | keeps the streaming invariant for any input: the state has absorbed the whole blocks of everything fed, the buffer starts with the rest, whatever stale bytes follow |
| `Md5.MD5.TransformBlocks` | ext/md5.hpp:278-279 | the loop absorbs exactly the whole blocks of the input |
| `Md5.MD5.Pad` | ext/md5.hpp:297-307 | the padding and the length, fed like other input, complete RFC 1321's padded message |
| `Md5.MD5.Final` | ext/md5.hpp:294-316 | stores the RFC 1321 digest of everything fed since Init, however it was cut, prints it, and wipes the context |
| `Md5.MD5.WriteToString` | ext/md5.hpp:321-326 | 32 characters, each one of 0-9 or a-f, two for each byte with the high digit first, then a NUL |
| `Md5.HexShows` | ext/md5.hpp:325 | by character arithmetic: every byte is 16 times the value of its first character plus that of its second |
| `Md5.ShowsDetermines` | ext/md5.hpp:325 | no other text shows the bytes so |
| `Md5.HexInjective` | ext/md5.hpp:321-326 | digests that print alike are equal |
| `Md5.MD5.DigestMemory` | ext/md5.hpp:365-371 | the digest of a byte array of any length is the RFC's |
| `Md5.MD5.DigestFile` | ext/md5.hpp:341-360 | for any sequence of short reads the digest is the RFC's digest of their concatenation |
| `Buffers.BufferSize` | ext/asio/buffer.hpp:386-396 | the total size is the number of addresses the sequence names |
| `Buffers.PlusDrops` | ext/asio/buffer.hpp:442-453 | an offset buffer is the rest of the buffer, and empty when the offset exceeds it |
| `Buffers.LimitedTakes` | ext/asio/buffer.hpp:718-729 | a buffer limited to a size is its front, and whole when the limit exceeds it |
| `Buffers.CopyOne` | ext/asio/buffer.hpp:1295-1304 | one memcpy of the lesser size; every other byte of memory unchanged |
| `Buffers.CopyOneLimited` | ext/asio/buffer.hpp:1761-1765 | the same, of at most the given number of bytes |
| `Buffers.CopySeq` | ext/asio/buffer.hpp:1693-1736 | leaves the memory that copying the first min(total target, total source) flattened bytes one by one leaves, and nothing else changed; asks only that no single memcpy overlaps itself; terminates with empty buffers anywhere |
| `Buffers.CopySeqLimited` | ext/asio/buffer.hpp:2186-2231 | the same with a byte limit, terminating by both cursors and the remaining budget |
| `Buffers.CopyToOne` | ext/asio/buffer.hpp:1402-1421 | the one-target loop leaves the count and the memory of the general loop on a one-element sequence |
| `Buffers.CopyFromOne` | ext/asio/buffer.hpp:1573-1592 | the one-source loop leaves the count and the memory of the general loop on a one-element sequence |
| `Buffers.InOrderIsCopy` | ext/asio/buffer.hpp:1674-1692 | where no target byte is named twice or is also a source, the copy is simultaneous: every target holds the byte its source had before, and no other byte changes |
| `Buffers.ApartSuffices` | ext/asio/buffer.hpp:1690-1691 | sequences that share no address never make a memcpy overlap itself |
| `Buffers.ApartExact` | ext/asio/buffer.hpp:1690-1691 | two sequences share no address exactly when no view of one overlaps a view of the other |
| `Buffers.DistinctExact` | ext/asio/buffer.hpp:1690-1691 | a sequence names no address twice exactly when no two of its views overlap |
| `Buffers.CopyExtends` | ext/asio/buffer.hpp:1295-1304 | a memcpy that does not overlap itself is its bytes copied one by one |
| `Buffers.CopyDetermined` | ext/asio/buffer.hpp:1402-1736 | the simultaneous copy leaves no byte of memory open |
| `Buffers.CopyReadsBack` | ext/asio/buffer.hpp:1674-1692 | read back, the targets hold the first n source bytes and then their own old bytes; the sources are intact |
| `Buffers.StepDone` | ext/asio/buffer.hpp:1709-1732 | one iteration extends the copy by its bytes and moves both cursors to match |
| `Buffers.AddrAt` | ext/asio/buffer.hpp:1709-1713 | byte j of view i is at index `bytes before view i + j` of the flattened sequence |
| `BuffersIterators.SeekInside` | ext/asio/buffers_iterator.hpp:299-304 | an offset inside a buffer is the canonical place of the position it counts, with any empty buffers before it |
| `BuffersIterators.SeekFinds` | ext/asio/buffers_iterator.hpp:147-163 | every position below the total is inside a non-empty buffer, and the total is the end |
| `BuffersIterators.AtInjective` | ext/asio/buffers_iterator.hpp:306-310 | positions are equal exactly when the places are |
| `BuffersIterators.BuffersIterator.Begin` | ext/asio/buffers_iterator.hpp:127-144 | position 0 in canonical form, past leading empty buffers |
| `BuffersIterators.BuffersIterator.End` | ext/asio/buffers_iterator.hpp:147-163 | the end position, numbered with the total size |
| `BuffersIterators.BuffersIterator.Lands` | ext/asio/buffers_iterator.hpp:320-360 | a cursor on a byte, or at the end, is where its position belongs |
| `BuffersIterators.BuffersIterator.Dereference` | ext/asio/buffers_iterator.hpp:301-304 | the byte read is the flattened byte at `position_` |
| `BuffersIterators.BuffersIterator.Index` | ext/asio/buffers_iterator.hpp:178-183 | operator[] reads the flattened byte `difference` places away |
| `BuffersIterators.BuffersIterator.Increment` | ext/asio/buffers_iterator.hpp:313-333 | canonical form is kept and the position grows by one, over any run of empty buffers |
| `BuffersIterators.BuffersIterator.Decrement` | ext/asio/buffers_iterator.hpp:336-363 | canonical form is kept and the position shrinks by one |
| `BuffersIterators.BuffersIterator.Advance` | ext/asio/buffers_iterator.hpp:366-445 | both loops terminate for every target in range and land in canonical form at position + n; so advance(-n) undoes advance(n) |
| `BuffersIterators.BuffersIterator.ByOnes` | ext/asio/buffers_iterator.hpp:313-445 | n increments, or -n decrements, end where advance(n) does |
| `BuffersIterators.BuffersIterator.Plus` | ext/asio/buffers_iterator.hpp:230-254 | operator+ and operator- give a new iterator at the shifted position and leave the old one alone; the distance to it is the difference, and back its negative |
| `BuffersIterators.BuffersIterator.DistanceIsBetween` | ext/asio/buffers_iterator.hpp:448-451 | the difference of two iterators is the number of bytes between their places, in whole buffers and offsets |
| `BuffersIterators.BuffersIterator.EqualIsSamePlace` | ext/asio/buffers_iterator.hpp:264-267 | operator== holds exactly for the same buffer and offset |
| `BuffersIterators.BuffersIterator.LessIsBefore` | ext/asio/buffers_iterator.hpp:276-279 | operator< is the order of places: buffers first, then offsets |
| `BuffersIterators.Walk` | ext/asio/buffers_iterator.hpp:185-227 | every run of legal moves ends in canonical form at the position the moves add up to |
| `BuffersIterators.LegalExact` | ext/asio/buffers_iterator.hpp:313-445 | the runs meant are those whose every move stays inside the sequence |
| `BuffersIterators.DestinationAppend` | ext/asio/buffers_iterator.hpp:215-227 | runs of moves compose |
| `Streambufs.ToIntExact` | ext/asio/basic_streambuf.hpp:227-244 | the cast to int keeps a count exactly up to 2^31 - 1 |
| `Streambufs.FailedReserve` | ext/asio/basic_streambuf.hpp:312-331 | contents of a length survive a failed reserve, whatever they are, exactly when the get offset is 0 or at least that length |
| `Streambufs.FirstInFirstOut` | ext/asio/basic_streambuf.hpp:39-43 | what was read and what is held are what was appended, in order, without loss or repeats |
| `Streambufs.ApplyAllBounded` | ext/asio/basic_streambuf.hpp:62-68 | size() <= max_size() is kept by every run of the reference queue |
| `Streambufs.BasicStreambuf.constructor` | ext/asio/basic_streambuf.hpp:131-141 | empty, with the pointers in order inside the array |
| `Streambufs.BasicStreambuf.Size` | ext/asio/basic_streambuf.hpp:158-161 | the length of the input sequence, at most max_size() |
| `Streambufs.BasicStreambuf.Reserve` | ext/asio/basic_streambuf.hpp:299-337 | fails exactly when size() + n > max_size(); otherwise contents unchanged, shifted only if there is no room for n and then grown no more than needed; on failure the pointers are unmoved and the contents are the old ones from the get offset on, followed by their own end, so unchanged when that offset is 0 or at least size() |
| `Streambufs.BasicStreambuf.ShiftDown` | ext/asio/basic_streambuf.hpp:312-317 | the memmove puts the contents at the front of the array and leaves what FailedReserve judges between the unmoved pointers |
| `Streambufs.BasicStreambuf.Prepare` | ext/asio/basic_streambuf.hpp:204-209 | the same, and the address of the room |
| `Streambufs.BasicStreambuf.Commit` | ext/asio/basic_streambuf.hpp:223-229 | appends the first min(n, room) characters of the output sequence |
| `Streambufs.BasicStreambuf.Consume` | ext/asio/basic_streambuf.hpp:238-245 | drops min(n, size()) characters from the front |
| `Streambufs.BasicStreambuf.Underflow` | ext/asio/basic_streambuf.hpp:254-265 | the first character without removing it, or end of file exactly when empty |
| `Streambufs.BasicStreambuf.Overflow` | ext/asio/basic_streambuf.hpp:274-297 | appends a character; on a full put area makes room for at most 128, and fails exactly when size() == max_size(), changing nothing |
| `Streambufs.BasicStreambuf.Sputc` | ext/asio/basic_streambuf.hpp:267-297 | a character is appended exactly while size() < max_size() |
| `Streambufs.BasicStreambuf.Sbumpc` | ext/asio/basic_streambuf.hpp:250-265 | takes the head of the input sequence, also what was put after the get area was set |
| `Streambufs.BasicStreambuf.ReadSizeHelper` | ext/asio/basic_streambuf.hpp:344-350 | the size read is the caller's limit or what is free, the lesser, but no more than 512 or the free capacity, the greater |
| `Streambufs.BasicStreambuf.PrepareAndCommit` | ext/asio/basic_streambuf.hpp:88-103 | the documented receive pattern appends the received characters |
| `Streambufs.BasicStreambuf.Perform` | ext/asio/basic_streambuf.hpp:204-297 | each operation does what it does to a bounded queue, and throws when the queue would |
| `Streambufs.PerformAll` | ext/asio/basic_streambuf.hpp:204-337 | every run refines the bounded first-in first-out queue: same items, same characters read, same moment of failure |
| `Streambufs.ProperExact` | ext/asio/basic_streambuf.hpp:204-245 | the only operations left out are commits of more than was prepared and counts of 2^31 and more |
| `Streambufs.FailedPrepareCorrupts` | ext/asio/basic_streambuf.hpp:204-331 | a real object: of `abc` one character is read, a prepare fails, and the `bc` that was left reads `cc` |
| `SocketStreambufs.SocketStreambuf.constructor` | ext/asio/basic_socket_streambuf.hpp:131-139 | buffered, with empty areas |
| `SocketStreambufs.SocketStreambuf.Overflow` | ext/asio/basic_socket_streambuf.hpp:332-402 | succeeds if and only if the schedule and the timer can carry all that has to go out, and then it has gone out once and in order; otherwise exactly the part that could be carried is out, the put area still holds all of it, and the error is that of the transfer that stopped it |
| `SocketStreambufs.SocketStreambuf.SendPending` | ext/asio/basic_socket_streambuf.hpp:367-391 | the send loop sends exactly what the schedule and the timer let through, in order |
| `SocketStreambufs.SocketStreambuf.Sync` | ext/asio/basic_socket_streambuf.hpp:404-407 | succeeds exactly when the line can carry everything pending, and then all of it is sent and nothing pending |
| `SocketStreambufs.SocketStreambuf.Sputc` | ext/asio/basic_socket_streambuf.hpp:332-402 | accepts the character exactly when there is room or the line can carry what makes room; then sent + pending grows by exactly the character |
| `SocketStreambufs.SocketStreambuf.SetBuf` | ext/asio/basic_socket_streambuf.hpp:409-419 | switches to unbuffered exactly for setbuf(0, 0) with nothing pending |
| `SocketStreambufs.SocketStreambuf.InitBuffers` | ext/asio/basic_socket_streambuf.hpp:432-441 | both areas empty, put area of the mode's size |
| `SocketStreambufs.SocketStreambuf.Close` | ext/asio/basic_socket_streambuf.hpp:219-226 | the result is the close's; if it succeeds, sent + pending is conserved exactly when the line could carry everything pending |
| `SocketStreambufs.SocketStreambuf.Underflow` | ext/asio/basic_socket_streambuf.hpp:300-330 | an empty get area is refilled exactly when the timer has not expired and the next receive delivers, with what it delivers; a non-empty one reports end of file |
| `SocketStreambufs.SocketStreambuf.Sbumpc` | ext/asio/basic_socket_streambuf.hpp:300-330 | returns the head of what is unread and incoming exactly when something is unread or the next receive delivers; nothing is lost or repeated, and received = delivered + unread is kept |
| `SocketStreambufs.WriteAll` | ext/asio/basic_socket_streambuf.hpp:332-407 | for any mix of sputc and sync and any partial sends: there is no error if and only if the line carries each message the run has to send; then sent + pending is what was written, and after a sync (or unbuffered) all of it is sent; up to the first error what is sent is a prefix of it |
| `SocketStreambufs.WrittenPrefix` | ext/asio/basic_socket_streambuf.hpp:332-407 | what a run wrote before is a prefix of what it writes in all |
| `SocketStreambufs.MessagesAreWritten` | ext/asio/basic_socket_streambuf.hpp:332-407 | the messages a run has to send and what stays pending add up to what was pending and written |
| `SocketStreambufs.UndisturbedRun` | ext/asio/basic_socket_streambuf.hpp:332-407 | where no transfer fails and the timer does not come due, a completion for every character carries any run of writes |
| `SocketTransfers.SendsExact` | ext/asio/basic_socket_streambuf.hpp:367-391 | everything goes out if and only if some successful completions at the front of the schedule move that much and the timer is not due before the last of them |
| `SocketTransfers.PartlySends` | ext/asio/basic_socket_streambuf.hpp:367-391 | a failed flush has sent something exactly when the timer had not expired, something was pending and the first transfer succeeds |
| `SocketTransfers.UndisturbedSends` | ext/asio/basic_socket_streambuf.hpp:367-391 | undisturbed transfers carry any messages of whatever sizes |
| `SocketTransfers.UndisturbedArrives` | ext/asio/basic_socket_streambuf.hpp:309-325 | undisturbed receives bring in everything, whatever their sizes |
| `SocketStreambufs.SyncAgain` | ext/asio/basic_socket_streambuf.hpp:367-407 | of two syncs in a row, a second one that succeeds after a failed first repeats the part the first had sent; nothing is repeated exactly when the line was not ready to begin with |
| `SocketStreambufs.RepeatedPrefix` | ext/asio/basic_socket_streambuf.hpp:367-407 | a run of the class: one of the characters `ab` goes out, the next transfer fails, and the peer gets `aab` |
| `SocketStreambufs.LostOnClose` | ext/asio/basic_socket_streambuf.hpp:219-226 | a run of the class: the same failure inside close, which succeeds with `a` sent and nothing pending |
| `SocketStreambufs.SyncAfterRenewal` | ext/asio/basic_socket_streambuf.hpp:274-282 | with an expired timer a sync sends and loses nothing; after a later expiry is set, the next one sends everything exactly when the line can carry it |
| `SocketStreambufs.ReadUpTo` | ext/asio/basic_socket_streambuf.hpp:300-330 | reading n characters delivers exactly the lesser of n and what is unread or arrives before the first receive that delivers nothing, in order |
| `IniText.SkipAnywhere` | ext/INI.h:282-284 | blank lines, comments and lines without a value can be inserted anywhere without changing the result |
| `IniLaws.CommentSkipped` | ext/INI.h:281-284 | an empty line, one that starts with `#` and one that starts with two slashes mean nothing |
| `IniLaws.NulEnds` | ext/INI.h:281-283 | a line ends at its first NUL |
| `IniLaws.HeaderLineNames` | ext/INI.h:286-300 | a header names what stands between its bracket and its last character, whatever white space follows |
| `IniLaws.PrintedHeaderNames` | ext/INI.h:286-300 | so `[s]` with white space behind it names s |
| `IniLaws.BareBracket` | ext/INI.h:289-294 | a bracket followed by white space only has no defined name |
| `IniLaws.KeyLineAssigns` | ext/INI.h:303-335 | `=` signs and white space in front of a key do not count, the key ends at the next `=`, and all the rest is its value |
| `IniLaws.NoValueSkipped` | ext/INI.h:311-314 | without a second `=`-separated part the line means nothing |
| `IniLaws.KeyOkExact` | ext/INI.h:281-335 | the keys that survive a round trip, in characters |
| `IniText.MeaningDefined` | ext/INI.h:286-336 | parsing is defined exactly when no header name underflows and every key line follows some header |
| `IniText.ParseIsLastWins` | ext/INI.h:263-343 | a section exists when a header names it, and holds the last value of each key under its last header |
| `IniText.LastWinsDetermines` | ext/INI.h:263-343 | that reading determines the result completely |
| `IniPrint.HeaderLineExact` | ext/INI.h:286-302 | a printed header reads back as itself exactly when its name has no NUL |
| `IniPrint.KeyLineExact` | ext/INI.h:303-335 | a printed key line reads back as itself exactly for the keys and values the format can hold |
| `IniPrint.AssignShape` | ext/INI.h:311-334 | what a key line can assign: a value, and a key without `=`, NUL or leading space |
| `IniPrint.SaveThenParse` | ext/INI.h:420-449 | parsing what save wrote gives the document back without its empty sections, for any iteration order |
| `IniExact.NoEmptyKey` | ext/INI.h:311-335 | no document with an empty key reads back |
| `IniExact.RoundTripExact` | ext/INI.h:263-449 | for every document and iteration order: the parse of the printed text comes to its end and gives the non-empty sections back if and only if every name, key and value is printable on a line of at most 1023 characters |
| `IniMerge.MergeLookup` | ext/INI.h:519-535 | merge is the pointwise union of sections and of keys, left or right values winning as retainValues says |
| `IniMerge.MergeIdempotent` | ext/INI.h:519-535 | merging a document into itself changes nothing |
| `IniMerge.MergeTwice` | ext/INI.h:519-535 | merging the same document in again changes nothing |
| `IniMerge.MergeAssociative` | ext/INI.h:519-535 | merging is associative, retaining or not |
| `IniMerge.MergeDual` | ext/INI.h:519-535 | retaining is overwriting seen from the other side |
| `Ini.InputStream.Getline` | ext/INI.h:264-269 | the next line, or, for more than 1023 characters, its front and a failure; after a failure nothing |
| `Ini.Turns` | ext/INI.h:268-269 | however many turns the loop takes, a text with a line of more than 1023 characters does not reach its end |
| `IniStream.NeverEnds` | ext/INI.h:268-269 | the invariant behind it: the stream is never at its end, and has failed or still has such a line before it |
| `IniStream.EndsExact` | ext/INI.h:268-269 | the loop comes to its end if and only if no line has more than 1023 characters |
| `IniStream.LinesRead` | ext/INI.h:268-269 | each turn before reads one whole line, in order, and the last line ends the loop |
| `Ini.Strtok` | ext/INI.h:311-312 | skips delimiters, takes the token, stops behind its delimiter |
| `Ini.ReadKey` | ext/INI.h:305-336 | the key loses its leading white space, the value is the rest of the line; either missing means the line is ignored |
| `Ini.ReadLine` | ext/INI.h:280-336 | the loops over one line compute its meaning |
| `Ini.INI.constructor` | ext/INI.h:153-161 | no sections, and none current |
| `Ini.INI.Bracket` | ext/INI.h:170-177 | operator[]: the section's own map, created empty if it was missing |
| `Ini.INI.Create` | ext/INI.h:181-191 | a new empty section becomes current, or an existing one is selected and false returned |
| `Ini.INI.Select` | ext/INI.h:195-203 | selects an existing section and changes nothing else |
| `Ini.INI.Set` | ext/INI.h:208-215 | assigns under the selected section only, or does nothing without one |
| `Ini.INI.Get` | ext/INI.h:224-230 | the value or the default |
| `Ini.INI.GetIn` | ext/INI.h:232-237 | selects the section if it exists; the value or the default |
| `Ini.INI.Store` | ext/INI.h:186-302 | no two sections come to share a key map; a replaced map leaks |
| `Ini.INI.StoreEmpty` | ext/INI.h:186-296 | a section gets a new empty map; no two sections come to share one |
| `Ini.INI.Open` | ext/INI.h:286-302 | a header gives its section a new empty map, which becomes current |
| `Ini.INI.TakeLine` | ext/INI.h:282-340 | one line's effect on the object is its meaning; exactly a repeated header leaks a map |
| `Ini.INI.Parse` | ext/INI.h:263-343 | whenever the loop comes to its end or the first byte abandons it, the object ends in the meaning of the text, and leaks one map for every header of a section that existed |
| `Ini.INI.Clear` | ext/INI.h:412-415 | every reachable key map is deleted, each exactly once; what had leaked stays |
| `Ini.INI.Save` | ext/INI.h:420-449 | writes the non-empty sections and their keys in any iteration order of the maps; a printable object is written out line by line |
| `IniSaved.SavedIsWrittenOut` | ext/INI.h:420-449 | in characters: every line of the text is `[`, a section with keys, `]`, or a key of the section last opened, `=`, its value; each such section and key has exactly one line |
| `Ini.SaveKeys` | ext/INI.h:434-439 | the inner loop writes one line for each key |
| `Ini.MergeKeys` | ext/INI.h:526-532 | the inner loop merges one section into another, or into itself |
| `Ini.INI.MergeEntry` | ext/INI.h:520-534 | one section of the other object: copied if missing here, merged key by key if not |
| `Ini.INI.Merge` | ext/INI.h:519-535 | for any iteration order the contents become the merged document, the last common section is selected, nothing is shared with or changed in the other object |
| `Ini.SaveAndReload` | ext/INI.h:263-449 | saving a printable object and parsing the file into a new one restores its non-empty sections, in any iteration order and for signed and unsigned char |

## Left out

- Md5.MD5.Update: asks that `i + 63` does not wrap in the loop test; where it does, the code reads past its input (`Md5.NoWrapExact`).
- Md5.MD5.DigestFile: the branch that prints a message when the file cannot be opened, because nothing is computed there.
- Md5.MD5.DigestMemory: takes the length as an unsigned number; a negative `int` length is not modelled.
- `digestString`: the same calls on a C string. The secrecy purpose of zeroizing local arrays has no counterpart here.
- Buffers.InOrderIsCopy: asks that no target byte is named twice or is also a source; where one is, `Buffers.CopySeq` still says what memory holds, and the source promises nothing about the flattened targets.
- The one-buffer overloads of `buffer_copy` with a byte limit forward to the loops modelled here; array, vector and string overloads of `buffer` and the debug checks only build views.
- BuffersIterators.BuffersIterator.Advance: asks that the target is inside the sequence, as the source asserts; what a default-constructed iterator does is not modelled.
- Streambufs.BasicStreambuf.Commit: asks that the count moved fits an int, and likewise `Consume`; beyond that `Streambufs.ToIntExact` shows the cast changes it.
- Streambufs.PerformAll: asks for commits of at most what was prepared, as the source documents. Putback, seeking and bulk transfers of `std::streambuf`, and allocation failure, are not modelled.
- `size_t` and `ptrdiff_t` are unbounded integers in the buffer and stream models; only the casts to int are written out.
- SocketStreambufs.SocketStreambuf.Overflow: one asynchronous transfer with its `run_one` loop is one completion, which says whether the timer came due meanwhile; what closing the socket does to later transfers is the schedule's to say. Connecting, name resolution and the timer service are left out.
- SocketStreambufs.SocketStreambuf.ExpiresAt: whether a timer that is moved while pending comes due is said by a later completion, not by its expiry time; expiry times are not kept.
- SocketStreambufs.SocketStreambuf.Underflow: the eight putback characters in front of the get area are not modelled; the source does not fill them.
- Ini.INI.Parse: asks that the loop comes to its end (`IniStream.EndsExact`) or the first byte abandons it, and that every line is defined, because the source otherwise runs for ever or has no defined behaviour.
- Ini.INI.Get: asks for a selected section, because the source dereferences the null pointer.
- Ini.INI.Merge: asks that the two objects share no key map; the model's operations never make two objects share one.
- `parseBinary`, `saveBinary`, wide characters, the `Converters` templates and opening of files: thin wrappers around streams.
- The translation server, decoder, language model and load balancer are not part of this model.
