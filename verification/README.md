# A verified model of the base and net libraries

A Dafny model of the parts of a Chromium-style `base/` library and the small event-driven `net/` layer on
top of it where most can go wrong, with proofs about every input, every run and every interleaving.
`dafny verify dfyconfig.toml` checks all of it.

What updates its fields or buffers in the library is a class or an array algorithm here, proved against a
function or a value; the theorems are about those functions and values.

**Pickle.** `Bits` and `Bytes` hold the bit-level `Align` with its wrap-around and the little-endian
images. `PickleFormat` is the byte format as functions: encoding, the cursor reader, the framing, the growth
policy; `PickleLayout` says byte by byte and case by case what they answer. `PickleBuffer` has the growing
buffer, the iterator and the sizer as classes over arrays; `PickleRoundTrip` runs them together over any list
of values, `PicklePool` over any number of live pickles written to, copied and assigned to one another in any
mix.

**Connections and server.** `Net` has both classes. Hooks are any finite scripts of `Close`,
`RegisterForWrite` and closing other connections. Each connection writes its effects to a ghost trace;
`SafetyMonitor`, which knows nothing of states or flags, accepts or rejects traces, and what an accepted trace
rules out is proved there.

**Paths and trees.** `PathAlgebra`, `PathAppend` and `PathExtension` are the path functions and their laws,
`FilePaths` the class with its loops. `FileSystems` is a file system of files and directories,
`FileEnumerators` the enumerator with its two stacks, `FileUtil`, `DirectorySize` and `CreateDirectory` the
operations on trees.

**Codecs.** `Numbers` parses integers of four types and `NumberTexts` says exactly which texts that
accepts; `Utf8` and `Hex` work on arrays of bytes.

**Ownership and initialisation.** `RefCounting` is the heap of counted objects, free pointers and member
pointers, with the cascade of destructors. `SharedCount` is the thread-safe count under every interleaving,
`Once` the one-time initialisation.

## Where the code differs from what one would expect

These are stated exactly, for all inputs:

- `Connection::Start` compares a bool with `< 0`, so a refused registration is not noticed
  (`Net.Connection.Start`).
- A `WriteIntoEndPoint` that registers for writing and then fails leaves its registration behind, and only
  that does; which runs do can be told from their steps, and everything else that is promised holds on them
  too (`Net.Connection.Drive`, `Net.Server.HandleEvent`, `Net.Server.Serve`, `Net.LeakingWrite`).
- `Server::Stop` ends when no data handler is on the stack (`Net.Server.Stop`), and never ends when one is
  (`Net.Server.StopRounds`).
- A copy of a read-only pickle can be written to only if it is empty (`PickleBuffer.Pickle.Copy`,
  `PickleBuffer.Pickle.Assign`, `PickleRoundTrip.CopyOfView`, `PickleRoundTrip.StuckCopy`).
- Appending to `./` and its like replaces the component `.` instead of adding to it
  (`PathAppend.ComponentsOfAppend`, `PathAppend.RelativePathRebuilds`, `PathAppend.AppendToDotSlash`).
- For a path that ends in a separator and has an extension, removing the extension and appending it again
  does not give the path back (`PathExtension.ExtensionPartsRejoin`,
  `PathExtension.TrailingSeparatorIsLost`).
- The UTF-8 decoder takes overlong forms and the hex decoder letters past F (`Utf8.OverlongIsRead`,
  `Utf8.StreamIsShortest`, `Hex.LetterPastF`, `Hex.Reencodes`).
- `UTF8Decode` reads the first byte before it looks at the length, so a length of 0 acts as 1, and there must
  be a byte to read (`Utf8.UTF8Decode`).
- Assigning to a pickle from a read-only view of its own buffer lets `realloc` free the bytes that `memcpy`
  then copies (base/pickle.cc:263-265); `PickleBuffer.Pickle.Assign` excludes just that. The other way round,
  a view assigned from the pickle it views, is fine and included.

## Assumptions

Machine words are little-endian and 64 bits wide. Allocation succeeds. `DCHECK` arguments are evaluated, and
where a `DCHECK` limits what may be passed in, that is the precondition. Registering for writing and taking
registrations back succeed, as the `CHECK`s around them demand; the answers of `accept`, of the socket calls,
of `::close` (fixed for each connection), of `ReadFromEndPoint`, `WriteIntoEndPoint` and `StillHaveDataToWrite` and of registering for
reading are arbitrary. `ReadFromEndPoint` and `WriteIntoEndPoint` may register for writing but do not close.
A readiness event is delivered only while its registration is on, and not for a closed descriptor. Atomic operations happen in one order.

## Model

| member | source | states |
|---|---|---|
| Bits.AlignRoundsUp | base/bits.h:37-40 | For every 64-bit size and every alignment the DCHECK lets through, the mask expression is the least multiple of the alignment that is not below the size, and 0 when the sum wraps around |
| Bits.AlignIs | base/bits.h:37-40 | Away from the top of the address space the mask expression agrees with plain rounding up, for the alignments 4, 64 and 4096 that the pickle code uses |
| Bits.CheckMeansPowerOfTwo | base/bits.h:38 | The bit test in the DCHECK accepts only powers of two |
| Bits.PowerOfTwoPassesCheck | base/bits.h:38 | The bit test accepts every power of two |
| Bits.Log2Floor | base/bits.h:12-27 | The binary search on widths ends at the exact floor of the logarithm, with -1 for 0, and its final DCHECK on the remaining value holds |
| Bits.Log2Ceiling | base/bits.h:29-35 | The exact ceiling of the logarithm for every 32-bit value, with -1 for 0 |
| Bytes.DecodeEncode | base/pickle.cc:23-33 | Reading a little-endian image gives back the value, whatever its width |
| Bytes.EncodeDecode | base/pickle.cc:23-33 | Every byte string is the image of the value read from it |
| Bytes.ByteAt | base/pickle.cc:391-397 | Byte i of a written integer is bits 8 i to 8 i + 7 |
| PickleFormat.RoundTrip | base/pickle.cc:76-163 | Reading the types of any list of values from a position where its encoding starts returns exactly the values and stops exactly at the end |
| PickleFormat.ReadEncoded | base/pickle.cc:76-163 | One read in front of any following bytes returns the written value and moves past its padding |
| PickleFormat.EncodingInjective | base/pickle.h:114-144 | Two lists of values with the same types and the same bytes are the same |
| PickleFormat.FailureIsFinal | base/pickle.cc:35-64 | A failed read puts the cursor at the end, from where every later read of at least one byte fails too |
| PickleFormat.NextCapacityBounds | base/pickle.cc:376-382 | The next capacity is a multiple of 64, holds the new size, is at least one and a half times the old one and at most twice the new size plus 4096 |
| PickleFormat.GrowthRun | base/pickle.cc:366-389 | After any writes the old capacities add up to at most twice the current one, which is at most twice the write offset plus 4096 |
| PickleFormat.CopyingIsLinear | base/pickle.cc:298-304 | Over any writes to a fresh pickle the bytes that realloc may move are at most four times the padded bytes written, plus a constant |
| PickleFormat.ReservingIsLinear | base/pickle.cc:286-304 | Over any mix of writes and Reserves from a fresh pickle the old capacities add up to at most twice the current one, which is at most three times the most ever in use or asked for, plus 4096 |
| PickleFormat.MixedGrowth | base/pickle.cc:286-304 | The same from any state within the bound |
| PickleFormat.FindNextExact | base/pickle.cc:320-356 | In front of any further bytes a frame is found at exactly its own length |
| PickleFormat.StrictPrefixIsNotFound | base/pickle.cc:320-356 | No strict prefix of a frame is taken for a frame |
| PickleFormat.CutRecovers | base/pickle.cc:320-331 | Cutting a concatenation of frames again and again gives back the list of frames and the unfinished tail |
| PickleFormat.CutSound | base/pickle.cc:320-331 | On arbitrary bytes the pieces are frames, lie end to end and leave a rest that starts with no whole frame |
| PickleFormat.ReadOnlyFits | base/pickle.cc:217-233 | On arbitrary bytes, with the 32-bit wrap-around of the subtraction: the header size is the length minus the payload size when that is positive and a multiple of 4, and 0 in every other case |
| PickleFormat.ReadOnlyRecovers | base/pickle.cc:217-233 | The bytes of a pickle give back its header size |
| PickleLayout.BoolLayout | base/pickle.h:114-116 | A bool is exactly the bytes 1 0 0 0 or 0 0 0 0 |
| PickleLayout.NumberLayout | base/pickle.h:117-140 | A number is exactly its two's-complement bytes, lowest first, and zeros up to four or eight |
| PickleLayout.BytesLayout | base/pickle.cc:281-284 | Bytes are written as they are, followed by fewer than four zeros up to a multiple of four |
| PickleLayout.SizedLayout | base/pickle.cc:270-279 | A string or data is the 32-bit length followed by the bytes |
| PickleLayout.Ranges | base/pickle.h:117-138 | The values of each integer type |
| PickleLayout.ValueIsOfImage | base/pickle.cc:23-33 | Whatever bytes a number is read from, they are the image of the value read |
| PickleLayout.PlainReads | base/pickle.cc:35-120 | On any payload and cursor a read of fixed size succeeds exactly when the bytes are left, padding or not, and moves behind the padding or to the end |
| PickleLayout.SizedReads | base/pickle.cc:122-155 | On any payload and cursor a string or data read succeeds exactly when a length that is not negative and that many bytes are left |
| PickleLayout.CapacityPastPage | base/pickle.cc:376-382 | Past a page the next capacity is 64 below the least sufficient multiple of 4096, unless more is needed at once |
| PickleLayout.CapacityInPage | base/pickle.cc:376-382 | Up to a page the capacity doubles, unless more is needed at once |
| PickleLayout.CapacityReserved | base/pickle.cc:293-295 | Reserve goes to the least multiple of 64 that holds twice the capacity and the new size |
| PickleLayout.PeekSeesHeader | base/pickle.cc:334-356 | As soon as the header of a frame has arrived its whole size is known, however much of the rest is there and whatever follows |
| PickleLayout.PeekNeedsHeader | base/pickle.cc:342-355 | On any bytes peeking answers exactly when a whole header is there, with the size it announces |
| PickleLayout.FoundWhenComplete | base/pickle.cc:320-331 | On any bytes a frame is found exactly when all that its header announces is there |
| PickleLayout.Conversions | base/pickle.cc:270-275 | The casts between lengths keep the value modulo the size of the type |
| PickleBuffer.Pickle.constructor | base/pickle.cc:195-204 | A valid empty pickle with a 4-byte header and 64 bytes of room |
| PickleBuffer.Pickle.WithHeader | base/pickle.cc:206-215 | A valid empty pickle; the header size is rounded up to a multiple of 4 |
| PickleBuffer.Pickle.ReadOnly | base/pickle.cc:217-233 | On arbitrary bytes the pickle is null or header size and payload size add up to the length; the offset for writing stays 0 |
| PickleBuffer.Pickle.Copy | base/pickle.cc:235-242 | Same header and payload in a buffer of its own; the copy can be written to exactly when the original's write offset is its payload size and aligned, so not for a copy of a non-empty read-only pickle |
| PickleBuffer.Pickle.Assign | base/pickle.cc:249-268 | Takes over header and payload across header sizes and into read-only targets, a view of the source's own buffer included; leaves itself alone on self-assignment; writable under the same exact condition as a copy |
| PickleBuffer.Pickle.Resize | base/pickle.cc:298-304 | The new capacity is a multiple of 64, the old contents are kept and the amount realloc may move is added up |
| PickleBuffer.Pickle.Reserve | base/pickle.cc:286-296 | Payload, header and write offset stay; afterwards the reserved bytes fit without growing; the buffer is untouched when they fitted already and grows by the policy otherwise |
| PickleBuffer.Pickle.ClaimUninitializedBytesInternal | base/pickle.cc:366-389 | Grows by the policy whose bounds are proved, keeps all bytes before the new ones, zeroes the padding and moves payload size and write offset together |
| PickleBuffer.Pickle.WriteBytesCommon | base/pickle.cc:391-397 | The payload is the old payload followed by the bytes padded with zeros to 4, however the buffer had to grow |
| PickleBuffer.Pickle.WritePod | base/pickle.h:203-206 | Appends the encoding of a number of any of the integer types, or of an opaque float or double, and keeps the invariant |
| PickleBuffer.Pickle.WriteBool | base/pickle.h:114-116 | Appends the encoding of a bool, four bytes wide |
| PickleBuffer.Pickle.WriteBytes | base/pickle.cc:281-284 | Appends the first `length` bytes, padded |
| PickleBuffer.Pickle.WriteString | base/pickle.cc:270-275 | Appends length and bytes; a size that does not fit 31 bits is truncated as the casts do it |
| PickleBuffer.Pickle.WriteData | base/pickle.cc:277-279 | Fails and changes nothing for a negative length, else appends length and bytes |
| PickleBuffer.Pickle.PeekNext | base/pickle.cc:334-356 | Agrees on any range of any array with the frame reader whose exactness is proved |
| PickleBuffer.Pickle.FindNext | base/pickle.cc:320-331 | Agrees with the frame finder, as a position in the array; what stands outside the range makes no difference |
| PickleBuffer.Pickle.FrameIsFrame | base/pickle.h:105-110 | Header and payload of a pickle being written are one frame with that payload |
| PickleBuffer.PickleIterator.constructor | base/pickle.cc:17-21 | Stands at the start of exactly the pickle's payload |
| PickleBuffer.PickleIterator.Advance | base/pickle.cc:35-42 | Moves by the size rounded up to 4 but never past the end |
| PickleBuffer.PickleIterator.GetReadPointerAndAdvance | base/pickle.cc:55-64 | Returns the bytes under the cursor, or nothing and the end position for a negative or too large count |
| PickleBuffer.PickleIterator.ReadBool | base/pickle.cc:76-78 | Agrees with the format's reader on any payload and cursor |
| PickleBuffer.PickleIterator.ReadPod | base/pickle.cc:80-120 | Agrees with the format's reader for every number type |
| PickleBuffer.PickleIterator.ReadString | base/pickle.cc:122-145 | Agrees with the format's reader, negative and oversized lengths included |
| PickleBuffer.PickleIterator.ReadData | base/pickle.cc:147-155 | Agrees with the format's reader; the length is what was announced even when only the bytes are missing, and 0 when it could not be read |
| PickleBuffer.PickleIterator.ReadBytes | base/pickle.cc:157-163 | Agrees with the format's reader |
| PickleBuffer.PickleSizer.AddBytes | base/pickle.cc:180-182 | For every int, adds the padded length, or for a negative one takes its multiple of 4 away, wrapping as size_t does |
| PickleBuffer.PickleSizer.AddString | base/pickle.cc:169-172 | Adds what writing the string takes; a size that does not fit an int counts as the casts make it |
| PickleBuffer.PickleSizer.AddData | base/pickle.cc:174-178 | Adds what writing the data takes |
| PickleBuffer.PickleSizer.AddPod | base/pickle.h:84-87 | Adds what writing the number takes |
| PickleBuffer.PickleSizer.AddBool | base/pickle.h:71 | Adds what writing the bool takes |
| PickleRoundTrip.EncodeDecode | base/pickle_unittest.cc:85-109 | Any list of values written to a fresh pickle reads back unchanged from it, from a copy and from a pickle it was assigned to, with nothing left over |
| PickleRoundTrip.WriteItem | base/pickle.h:114-144 | A write of any type appends its encoding and grows the buffer by the policy |
| PickleRoundTrip.WriteFresh | base/pickle.cc:366-397 | Writing any list of values to a fresh pickle makes realloc move at most four times the payload plus 8192 bytes, and leaves a capacity of at most twice the payload plus 4096 |
| PickleRoundTrip.FillFresh | base/pickle.cc:286-304 | The class itself keeps that bound over any mix of writes and Reserves |
| PickleRoundTrip.ReadItems | base/pickle_unittest.cc:30-81 | A chain of typed reads on any payload gives what the format's reader gives and leaves the cursor where it does |
| PickleRoundTrip.SizeItems | base/pickle.h:64-89 | Fed any list of values, the sizer grows by exactly the bytes that writing them takes, modulo the machine word |
| PickleRoundTrip.View | base/pickle.cc:217-233 | A read-only pickle on the bytes of a written one has its header size and its payload |
| PickleRoundTrip.CopyOfView | base/pickle.cc:235-242 | The copy of any read-only pickle with a payload has the payload but a write offset of 0, so it is not in shape for writing |
| PickleRoundTrip.StuckCopy | base/pickle.cc:235-242 | The smallest such copy: one bool |
| PicklePool.Perform | base/pickle.cc:235-304 | With any number of live pickles in separate buffers, each write, Reserve, copy construction or assignment, to itself included, changes the one pickle it names as the model says and no other |
| PicklePool.Run | base/pickle.cc:235-304 | After any program over any number of pickles each payload is the concatenation of the encodings the program put there, payload size equals write offset, within the capacity, and 64 divides the capacity, 4 the offset |
| PicklePool.AfterMeans | base/pickle.cc:235-304 | What each operation means for every pickle of the pool |
| PicklePool.Inspect | base/pickle.h:64-89 | After any such program each pickle reads back as its values with nothing left over, and a sizer fed with them reports its payload size |
| SafetyMonitor.AcceptedIsSafe | net/connection.cc:45-84 | In an accepted trace nothing is closed twice, nothing follows the call of on_close_, neither happens while a data handler runs, no direction is registered twice, and no read registration is left when the descriptor closes |
| SafetyMonitor.OwnerIsToldTheVerdict | net/connection.cc:54-83 | In an accepted trace the owner is told CLOSE_ERROR if and only if ::close failed, and otherwise of the read or write that failed, or OK when none did |
| SafetyMonitor.DepthCountsHandlers | net/connection.cc:118-121 | The monitor's depth is the number of data handlers entered and not left |
| SafetyMonitor.PastEffect | net/connection.cc:63-71 | A registration stays on until the trace takes it back or uses it up; closing and notifying are remembered for ever |
| SafetyMonitor.FlagsAreRegistrations | net/connection.cc:63-71 | The monitor's flags say exactly which directions the trace has registered and neither used up nor taken back |
| Net.Connection.Start | net/connection.cc:26-35 | Succeeds exactly from INIT: the test `< 0` on a bool never fires, so a refused registration goes unnoticed and only the registered flag tells |
| Net.Connection.Close | net/connection.cc:37-43 | Does nothing unless CONNECTED; inside this connection's data handler it only marks; otherwise the connection is DISCONNECTED on return and the owner told OK, or CLOSE_ERROR exactly if ::close failed |
| Net.Connection.CloseInternal | net/connection.cc:45-84 | From DISCONNECTING, with no data handler of its own running, it closes and tells the owner exactly the failure there was, CLOSE_ERROR exactly if ::close failed, or OK; otherwise it changes nothing |
| Net.Connection.RegisterForWrite | net/connection.cc:86-95 | True exactly when CONNECTED, and then a write registration is pending, never a second one |
| Net.Connection.RunHook | net/connection.cc:118-121 | Any script of re-entrant calls keeps every connection's trace accepted; no connection it names is CONNECTED afterwards; without such calls it changes its own connection exactly as the script says and nothing else; while its handler runs that can at most be marked for closing |
| Net.Connection.MakeCall | net/connection.cc:118-121 | What each single call of a hook does, to its own connection and to the one it names |
| Net.Connection.HandleRead | net/connection.cc:127-144 | Runs the handler with all its calls and never loses a registration; DISCONNECTED afterwards if the read failed or the handler closed, with the owner told exactly READ_ERROR or OK, or CLOSE_ERROR if ::close failed; otherwise still CONNECTED, with the write registration as the handler left it and nothing else changed |
| Net.Connection.HandleWrite | net/connection.cc:101-125 | Runs the handler with all its calls; a registration is lost exactly when WriteIntoEndPoint registers again and then fails; DISCONNECTED after a failure or close, with the owner told exactly WRITE_ERROR or OK, or CLOSE_ERROR if ::close failed; otherwise the next registration is there exactly when asked for and nothing else has changed |
| Net.Connection.Drive | net/connection.cc:26-144 | For any steps, re-entrant handlers included, the trace stays accepted and the steps alone, followed by a pure phase function, decide where the connection ends; once DISCONNECTED no read registration remains, and a write registration does if and only if the phase function says so before the run |
| Net.Connection.Take | net/connection.cc:26-144 | One call from outside or one delivered event moves the connection by exactly one step of the phase function |
| Net.NothingLeft | net/connection.cc:101-125 | Steps without a write that registers again and fails leave nothing behind, whatever the phase |
| Net.Connection.Registrations | net/connection.cc:63-71 | The condition under which a registration outlives a connection, as a consequence of the invariant |
| Net.LeakingWrite | net/connection.cc:101-125 | The shortest run that leaves a write registration behind |
| Net.Server.OnNewConnection | net/server.cc:87-130 | A connection joins the live set exactly when accept and the socket defaults succeed, with the calls of HandleNewConnection carried out on it; otherwise nothing changes |
| Net.Server.OnConnectionClose | net/server.cc:132-141 | The connection leaves the live set with one report carrying its own code, so the INVALID_CONNECTION branch is not taken |
| Net.Server.HandleConnectionClose | net/server.cc:139 | The hook may close any other connections in turn; each is reported once |
| Net.Server.CloseConnection | net/server.cc:143-154 | A live CONNECTED connection is closed, out of the live set and reported, or only marked while its own handler runs; in every other case nothing changes anywhere |
| Net.Server.Stop | net/server.cc:74-85 | Outside every data handler the loop ends with the set empty and every connection ever started DISCONNECTED and reported |
| Net.Server.StopRounds | net/server.cc:78-81 | However many rounds the loop makes, a connection whose handler is on the stack is never removed: from inside a handler Stop does not end |
| Net.Server.HandleEvent | net/server.cc:87-154 | An event does to the connection it reaches exactly what reading, writing, joining or closing does, and nothing at all if it reaches none; it loses a registration only by a write that registers again and fails |
| Net.Server.Serve | net/server.cc:87-154 | For any accepts, events and close requests the live set is the set of started connections not DISCONNECTED, each leaving it with exactly one report, whose code is what its trace calls for; without an event whose write registers again and fails no closed connection has a registration left |
| PathAlgebra.StripIdempotent | base/file_path.cc:411-424 | Stripping twice is stripping once, and changes exactly the paths with a trailing separator other than `/` and `//` |
| PathAlgebra.DirNameShortens | base/file_path.cc:200-225 | Going up shortens the path or reaches `.`: the measure that ends the loops |
| PathAlgebra.FixedPoints | base/file_path.cc:134 | DirName has exactly the fixed points `.`, `/` and `//` |
| PathAlgebra.StepUp | base/file_path.cc:134-140 | Each step of the loop takes exactly the last component off |
| PathAlgebra.WalkIsComponents | base/file_path.cc:121-153 | The components found going up are the plain split on `/` without empty segments, after the root component and without a leading `.` that something follows |
| FilePaths.FilePath.constructor | base/file_path.cc:97-102 | The stored path is the argument up to its first NUL |
| FilePaths.FilePath.StripTrailingSeparatorsInternal | base/file_path.cc:411-424 | The shrinking loop leaves the longest prefix without spare trailing separators, and exactly `//` alone |
| FilePaths.FilePath.GetComponents | base/file_path.cc:121-153 | Ends on every path with exactly the components of the split |
| FilePaths.FilePath.ReferencesParent | base/file_path.cc:426-437 | True exactly when some segment between separators is `..` |
| FilePaths.FilePath.AppendRelativePath | base/file_path.cc:167-198 | Succeeds exactly for a non-empty proper prefix of components, and then appends exactly the remaining ones to the target, which may be the parent or the child itself; an empty target becomes a relative path of exactly these components, but for `.` in front |
| FilePaths.FilePath.ProperPrefix | base/file_path.cc:174-190 | The comparison loop decides non-empty proper prefix |
| PathAppend.DirAndBaseOfAppend | base/file_path.cc:333-364 | After appending a name, DirName is the stripped path and BaseName the name |
| PathAppend.AppendExact | base/file_path.cc:333-364 | For every path and component: the component up to its NUL alone behind nothing and behind `.`, else behind the stripped path and exactly one separator or root; an empty component only strips |
| PathAppend.ComponentsOfAppend | base/file_path.cc:333-364 | Appending a name appends one component, if and only if the path is not a `.` with trailing separators (nor `.` itself with the name `.`) |
| PathAppend.AppendToDotSlash | base/file_path.cc:333-364 | The smallest path that appending does not extend |
| PathAppend.IsParentIsStrictOrder | base/file_path.cc:163-165 | IsParent is irreflexive, asymmetric and transitive |
| PathAppend.ComponentsOfAppendAll | base/file_path.cc:193-195 | Appending names one after another appends exactly them to the components |
| PathAppend.AppendAllToNothing | base/file_path.cc:192-196 | Appending names to an empty path gives a relative path whose components are exactly the names from the first that is not `.` |
| PathAppend.RelativePathRebuilds | base/file_path.cc:163-198 | Appending the relative part to the parent gives the child's components if and only if the parent does not strip to `.` |
| PathAppend.ParentSegmentIsComponent | base/file_path.cc:426-437 | A `..` segment is never dropped by the rules for components, nor made up by them |
| PathExtension.ExtensionPartsRejoin | base/file_path.cc:247-265 | For paths without NUL the two parts join up to the path if and only if there is no extension or no trailing separator |
| PathExtension.TrailingSeparatorIsLost | base/file_path.cc:256-265 | The smallest path whose two parts do not join up again |
| PathExtension.PositionBehindDirectory | base/file_path.cc:46-79 | A directory in front moves the position of the extension and changes nothing else, through double extensions and hidden files |
| PathExtension.ExtensionOfName | base/file_path.cc:46-79 | The extension of a name starts at its last dot, or at the one before exactly if a common suffix follows a piece of one to four characters |
| PathExtension.CommonDoubleExtensions | base/file_path.cc:22 | The common suffixes are gz, z and bz2 in any case, and no others |
| PathExtension.NoExtensionOfName | base/file_path.cc:46-54 | Names without a dot, `.` and `..` have no extension |
| FileSystems.FileSystem.ReadDirectory | base/file_enumerator.cc:124-156 | Lists every entry of a directory once with its node, `.` and `..` included, in some order |
| FileEnumerators.KeptAreChildren | base/file_enumerator.cc:87-107 | The entries that survive the filters are exactly the children of the wanted kind, each once |
| FileEnumerators.WalkExpands | base/file_enumerator.cc:77-107 | Listing the directory on top of the stack keeps the walk's invariant |
| FileEnumerators.WalkIsComplete | base/file_enumerator.cc:69-112 | A finished walk has handed out exactly the wanted entries of the tree, each once |
| FileEnumerators.FileEnumerator.Next | base/file_enumerator.cc:69-112 | Hands out a new entry of the wanted kind whose directory came before it, or an empty path when none is left; files already handed out may have been deleted meanwhile |
| FileEnumerators.FileEnumerator.Collect | base/file_enumerator.cc:85-107 | One listing is split into the new directories to visit and the entries to hand out |
| FileUtil.DeleteFile | base/file_util.cc:194-227 | A missing path succeeds, a file is unlinked, a directory alone needs to be empty; recursively it succeeds exactly when nothing in the tree is refused and then leaves nothing of it; a refusal leaves a tree that hangs together with all that is refused, all its directories if a file was refused and no file otherwise; it never touches anything outside and never calls rmdir on a directory with entries |
| FileUtil.DeleteFiles | base/file_util.cc:207-219 | The first loop unlinks every file of the tree and stacks every directory once, parents first, or stops at a refused file |
| FileUtil.TopIsEmpty | base/file_util.cc:221-225 | When only stacked directories are left, the one on top has no entries |
| FileUtil.TopIsReady | base/file_util.cc:221-225 | Each round of the second loop finds its directory present and empty |
| DirectorySize.ComputeDirectorySize | base/file_util.cc:43-50 | The running sum over the traversal is the total size of the files below the directory, exactly while 64 bits hold it and wrapped around beyond, and 0 when the root is no directory |
| DirectorySize.SizeIsRecursive | base/file_util.cc:43-50 | That total obeys the recursive law: the entries' own sizes for files, their totals for directories |
| CreateDirectory.CreateDirectoryAndGetError | base/file_util.cc:283-311 | Succeeds exactly when the top of the chain is a directory and no file stands on it; then every path of the chain is a directory and nothing else changed; a failure leaves exactly the directories above the first path that cannot be made |
| CreateDirectory.ChainLinks | base/file_util.cc:285-294 | Neighbours in the list of subpaths are a path and its DirName, up to a fixed point |
| Numbers.SafeIntExact | base/numbers.cc:550-572 | Success exactly for a sign, prefix and digits of the base whose mathematical value the type holds, and then that value; a numeral beyond the type fails with its maximum or minimum; every result fits the type |
| NumberTexts.ReadsExactly | base/numbers.cc:426-572 | Success with a value if and only if the text is white space, at most one sign, a prefix the base calls for, digits below the radix and white space, and the value, which the type holds, is that of the digits |
| NumberTexts.TakenApartExactly | base/numbers.cc:426-479 | Sign, base and digits are found exactly where a text has them, and nothing is found in any other text |
| NumberTexts.ValueLeft | base/numbers.cc:491-547 | The value left behind by success or failure: that of the digits up to the first that is none, no further than the limit of the type |
| NumberTexts.Refused | base/numbers.cc:439-475 | Signs, prefixes and bases that are refused, for every type |
| NumberTexts.DigitsAreAlphanumeric | base/numbers.cc:405-424 | The digits are exactly the figures and the letters of either case |
| NumberTexts.SpacesAreTheSix | base/ascii_ctype.cc:35-42 | White space is exactly the six ASCII space characters |
| NumberTexts.LimitsArePowers | base/numbers.cc:577-595 | The limits of the four types |
| Numbers.SafeParsePositiveInt | base/numbers.cc:482-513 | Computes, without leaving the type at any step, the value of the digits or the first good prefix, or the maximum where the value exceeds it |
| Numbers.SafeParseNegativeInt | base/numbers.cc:515-548 | The same downwards, to the minimum, which has no positive counterpart |
| Numbers.SafeParseSignAndBase | base/numbers.cc:426-479 | Trims, takes the sign, finds base 8, 10 or 16 by prefix and rejects empty numerals and bad bases, as the specification takes the text apart |
| Numbers.SafeIntInternal | base/numbers.cc:550-562 | Signed types: all branches together are the exact parser |
| Numbers.SafeUintInternal | base/numbers.cc:564-572 | Unsigned types: a minus sign fails, and otherwise the exact parser |
| Numbers.NumeralsReadBack | base/numbers.cc:550-595 | Every number of every type, the minimum included, reads back from its numeral in every base, with each prefix the base allows, either case, an optional plus and any white space around it |
| Numbers.DecimalReadsBack | base/numbers.cc:450-463 | With base 0 a decimal numeral reads back, zero through the octal branch |
| Numbers.OverflowFound | base/numbers.cc:499-507 | A good prefix beyond the limit decides the outcome whatever follows it |
| Numbers.ConsumeStrayLeadingZeroes | base/numbers.cc:241-258 | What is left has the same value in every base, is a suffix behind zeroes only, and starts with a zero only when it is a single character |
| Utf8.UTF8Encode | base/string_encode.cc:9-33 | Writes the encoding at its place and nothing else when it fits, and nothing at all when it does not |
| Utf8.UTF8Decode | base/string_encode.cc:35-66 | Succeeds exactly when the source starts with a whole form and returns its length and the value it carries; on failure the value stays; a length of 0 is taken for 1 |
| Utf8.EncodingIsShortest | base/string_encode.cc:9-33 | Any form carries a value up to 0x1FFFFF whose encoding is no longer, and is the same bytes exactly when it is as long |
| Utf8.FormsArePrefixFree | base/string_encode.cc:35-66 | A byte string starts with forms of at most one length |
| Utf8.FormsAreTheTable | base/string_encode.cc:35-66 | The forms that are decoded, bit by bit |
| Utf8.EncodingBytes | base/string_encode.cc:9-33 | The bytes of the encoding of each width |
| Utf8.Examples | base/string_encode.cc:9-33 | Examples of section 7 of RFC 3629, one of every width |
| Utf8.EncodingDecodes | base/string_encode.cc:9-66 | An encoding decodes to its value and length whatever follows |
| Utf8.StreamReadsBack | base/string_encode.cc:9-66 | Values up to 0x1FFFFF encoded back to back decode in a loop to the same values |
| Utf8.StreamIsShortest | base/string_encode.cc:9-66 | Any stream that decodes is at least as long as the encoder's for its values, and identical exactly when it is no longer |
| Utf8.OverlongIsRead | base/string_encode.cc:45-48 | The witness that overlong forms are accepted |
| Hex.HexEncodeWithDelimiter | base/string_encode.cc:94-124 | Stays inside the buffer, writes the text and a NUL and leaves the rest alone, or does nothing when the size check fails, which it does exactly when text and NUL do not fit |
| Hex.HexDecodeWithDelimiter | base/string_encode.cc:150-188 | Stays inside the buffer on every text, malformed ones included, and accounts for every byte of it; the result is 0 after a fault |
| Hex.DecodedFits | base/string_encode.cc:161-164 | The size check leaves room for all bytes written before the decoder stops, and is exact on accepted texts |
| Hex.RoundTrip | base/string_encode.cc:94-188 | Decoding undoes encoding for all bytes and every delimiter or none |
| Hex.Reencodes | base/string_encode.cc:76-89 | An accepted text encodes back to itself if and only if its digits are the encoder's own |
| Hex.LetterPastF | base/string_encode.cc:76-89 | The smallest accepted text that is not hexadecimal, and what it encodes back to |
| Hex.DigitTable | base/string_encode.cc:76-89 | What each character stands for, in either case, and that no other stands for anything |
| Hex.CaseDoesNotMatter | base/string_encode.cc:150-188 | A text and its upper-case form decode alike, faults included, unless a letter is the delimiter |
| Hex.GoodTextFirst | base/string_encode.cc:166-187 | A good text decodes to its bytes whatever stands behind it, and the decoder goes on from there |
| Hex.BadStart | base/string_encode.cc:167-175 | A text that starts with a single or a bad digit yields nothing |
| Hex.HexEncodeString | base/string_encode.cc:134-142 | The buffer of three bytes a byte is enough with and without delimiter, and none for the empty string |
| Hex.HexDecodeString | base/string_encode.cc:200-209 | Fails its length check exactly for malformed text |
| RefCounting.Store.Release | base/ref_counted.h:66-70 | Restores exact counts for all objects and destroys precisely the objects left without pointers, each after the last pointer to it went |
| RefCounting.Store.Delete | base/ref_counted.h:66-70 | Destroying an object destroys its members in any order, with all that follows |
| RefCounting.Store.DestroyPointer | base/ref_counted.h:195-199 | Takes the pointer away and what it alone kept alive |
| RefCounting.Store.Construct | base/ref_counted.h:163-169 | One more pointer, counted; nothing is destroyed |
| RefCounting.Store.CopyConstruct | base/ref_counted.h:171-183 | As constructing from the original's target |
| RefCounting.Store.MoveConstruct | base/ref_counted.h:185-193 | The pointer moves and no count changes |
| RefCounting.Store.Assign | base/ref_counted.h:215-225 | The heap afterwards is the one with the new value stored, minus what the old value alone kept alive, which may include the pointer assigned to |
| RefCounting.Store.AssignCopy | base/ref_counted.h:227-234 | As assigning the other pointer's target |
| RefCounting.Store.AssignMove | base/ref_counted.h:236-245 | Takes over the target and empties the source, releases the old target last, and keeps the pointer on a move to itself |
| RefCounting.Store.Swap | base/ref_counted.h:247-255 | Exchanges two pointers; every count stays |
| RefCounting.Store.HasOneRef | base/ref_counted.h:18-20 | True exactly when a single pointer refers to the object |
| RefCounting.Conservation | base/ref_counted.h:57-76 | In a valid heap counts are numbers of pointers, an object ever referred to is live exactly while something refers to it and has been destroyed exactly once otherwise, and no other object is ever destroyed |
| RefCounting.CollapseIsLeast | base/ref_counted.h:57-76 | A cascade destroys nothing but what has to go: its victims are contained in every set closed under losing all pointers |
| RefCounting.CollapseIsClosed | base/ref_counted.h:57-76 | And it destroys all of that: the victims are such a closed set |
| RefCounting.SelfAssignment | base/ref_counted_unittest.cc:122-127 | Assigning a pointer its own value leaves the whole heap as it was |
| RefCounting.SelfPointerGoes | base/ref_counted_unittest.cc:133-152 | An object kept alive only by its own member is destroyed when that member is assigned anything else, and the member with it |
| RefCounting.NoLeakWithoutCycle | base/ref_counted.h:195-199 | With no free pointer left and no cycle among the members, every object has been destroyed |
| RefCounting.Run | base/ref_counted.h:158-255 | Any program of pointer operations goes through a chain of valid heaps, each following from the one before as its operation says, until the first operation that names something not there |
| RefCounting.Execute | base/ref_counted.h:158-255 | One operation runs exactly when what it names is there, and changes the heap by exactly its step |
| RefCounting.RunFromEmpty | base/ref_counted.h:158-255 | From an empty heap every heap of that chain has conservation for every object |
| SharedCount.DeletedOnce | base/ref_counted.h:105-112 | With any number of threads and any interleaving the object is deleted at most once, and is about to be or has been exactly when no thread has a pointer |
| SharedCount.HasOneRefIsExclusive | base/ref_counted.cc:5-8 | A thread with a pointer that reads a count of one is the only one with a pointer, and conversely |
| Once.RunsOnce | base/once.cc:15-35 | For any number of calls and any schedule the closure starts at most once, and a call that has returned did so after it ended |
| Once.StateMoves | base/once.h:8-12 | The state only moves from 0 to 1 to 2, one at a time |
| Once.DoneReturns | base/once.cc:17-20 | Once the closure has run every call returns at its next look and changes nothing |
| Once.FirstSwapWins | base/once.cc:22-34 | The first call to swap runs the closure, and those that try while it does wait |
| Once.EveryCallReturns | base/once.cc:26-34 | Seven turns for every call, in any order and with any others between, and all calls have returned with the closure run exactly once |
| Once.OnceWord.Advance | base/once.cc:15-35 | Each access of the code to the shared word is the step of the protocol proved above |
| Once.Interleave | base/once.h:20-25 | Running the code's steps by any schedule reaches the protocol's world for that schedule |

## Left out

- `base/pickle.cc:66-74`, `base/pickle.h:39-45`: the element-count overload, ReadLength and SkipBytes are thin wrappers over the modelled reads.
- `base/pickle.h:121-131`, `base/pickle.cc:306-311`: WriteInt and WriteLong forward to the 32- and 64-bit writes; ClaimBytes has no caller.
- PickleBuffer.Pickle.WritePod: a float or double is its 4 or 8 bytes, taken as an unsigned number; no arithmetic is done on it.
- PickleBuffer.Pickle.Assign: from a read-only view of the target's own buffer the code reads freed memory, which has no contents to state.
- PickleBuffer.Pickle.WriteString: strings whose truncated size is negative run into the DCHECKs of the write path and are excluded.
- Net.Server.Serve: connections are never deallocated in the model, so use of a deleted connection by a hook that keeps a pointer to it is not expressed; the listening socket, its setup and the timers are not part of it.
- Net.Connection.RunHook: hooks name other connections by their place in the roster of those the server ever started.
- PathAlgebra: ReplaceExtension, InsertBeforeExtension and MatchesExtension are combinations of the modelled functions.
- FilePaths.FilePath.AppendRelativePath: asks that the child has no NUL, as every FilePath has by its constructor.
- FileSystems.FileSystem.ReadDirectory: there are no symbolic links, no unreadable directories, no entries that vanish between listing and stat, and paths are keys, so two spellings of one directory (relative and absolute, or with `..`) are two directories.
- FileEnumerators.FileEnumerator.Next: patterns, INCLUDE_DOT_DOT and non-recursive walks are not modelled.
- FileUtil.DeleteFile: `unlink` and `rmdir` refuse a fixed set of paths, and `rmdir` also those ending in `.`; other processes do not interfere.
- DirectorySize.ComputeDirectorySize: an overflow of the sum, which C++ leaves undefined, wraps around.
- CreateDirectory.CreateDirectoryAndGetError: permissions and error codes are not modelled; mkdir fails only for a missing parent or an existing name.
- Numbers.SafeParseSignAndBase: characters are those of ASCII and above, of which none above is a digit or white space.
- Numbers: the float parsers, ParseDoubleRange, ParseLeading* and the strto adapters rest on libc.
- Hex.HexEncodeWithDelimiter: lengths whose triple does not fit a machine word, and a source inside the destination buffer, are not modelled.
- RefCounting.Store.Delete: a destructor has no body of its own beyond destroying its members; addresses are not reused; conversions between pointer types and the exchange with a raw pointer by `swap(T**)` are not modelled.
- RefCounting.Store: the objects and pointers are entries of maps held by one store rather than objects of the language, so that a member can disappear together with its owner.
- SharedCount.DeletedOnce: the count does not wrap around at 2^31.
- Once.EveryCallReturns: the closure ends and does not call OnceInit on the same word; sched_yield and the memory orders have no effect in the model.
- `base/file.cc`, `base/dir_reader.h` and the rest of `base/file_util.cc`, `net/client.cc`, `net/socket_util.cc`, `net/ip_util.cc`: plumbing around system calls.
- `net/pc_queue.cc`, `net/count_down_latch.cc`: one lock each, with short safety facts.
- `base/time.cc`, `base/string_piece.cc`, `base/string_util.cc`, `base/ascii_ctype.cc` and the template helpers: calendars, simple searches, tables and language machinery.
