# A Dafny model of zenoh-cpp

zenoh-cpp is mostly a binding over a C library. This project models the parts that carry logic of their own:

* **The type-directed codec** (`Wire`, `Codec`, `CodecRoundTrip`, `CodecPrefix`, `CodecInPlace`,
  `CodecContainers`, `CodecPartial`, `CodecCanonical`, `CodecFlatten`, `CodecFaults`, `LengthErrors`, `ErrorModes`, `Serializers`, `Deserializers`,
  `SuccessiveCalls`). C++ types are a datatype `Ty`; an object in memory is an `Obj`, whose containers have the iteration order they happen to have; the
  value it denotes (what `operator==` compares) is a `Val`. `Encode` and `Decode` are pure; `Decode` fills an
  existing object in place, as the overloads do, and a failing run leaves the object as far as it was filled.
  The classes `Serializer` and `Deserializer` run the overloads with their loops, their cursor or buffer, and both
  error modes, against a library that may fail at any one call. Every foreign call requires that no step of the
  same run has failed before, so nothing is attempted after the first failing step.
* **The command-line parser** (`CliGrammar`, `CliTokens`, `CliTheorems`, `CliRender`, `CliArgs`). The grammar reads immutable
  tokens, one group (a positional, or an option with its value) at a time. `CliArgs` is the parser as it runs:
  it overwrites `=` by NUL inside `argv`, records views into the buffers, and its result, read in the final
  memory, is what the grammar gives for the original tokens.
* **The ownership discipline** (`Ownership`, `Channels`, `Closures`): wrappers, gravestones, C structs, releases;
  the ways out of channel-based calls; the life of a closure context.
* **The shared-memory backend of the test suite** (`Shm`) and **the storage example** (`Storage`).

## Main results

* Decoding an encoding, followed by anything, gives the encoded value and stops exactly behind it, at every type
  and for every iteration order; into an object with contents the value is merged (scalars replaced, sequences
  appended, sets united, old map entries kept), unless a vector has no room for its part. Encodings are
  prefix-free; truncated payloads are rejected. Conversely, whatever the decoder accepts is an encoding of what it
  reads, up to lengths spelled longer than needed.
* A run that fails half way leaves everything in front of the failing part as a success would, the failing part as its
  own run leaves it, and the rest untouched: in tuples, arrays and growing containers.
* A row of `serialize` or `deserialize` calls is one call on the tuple, reports and failures included, and only the
  flattened list of leaf types matters: any grouping of values into calls, tuples and pairs on the writing side can
  be read with any other on the reading side.
* A writing run breaks if and only if it makes the call that fails, and then at that call: it has a closed form. A
  reading run that meets a failing library call holds exactly what the reliable run would hold if the payload ended there;
  every other run is the reliable run.
* The two error modes end alike on every payload if and only if `*err` starts as `Z_OK` or the type makes a foreign
  call. (`StaleErrOnEmptyTuple` is the concrete exception: the empty tuple with a stale `*err`.)
* A non-null `err` does not keep every exception away: a payload can announce a length that makes the `reserve` of a
  vector throw `std::length_error`. It does so for some payload if and only if the type has a vector that a payload
  can reach.
* A scannable command line means a closed form of its positionals and of each option's own occurrences; hence
  groups can be reordered, options can be moved first, and rendering a result, with every option spelled `-c` or
  `--name`, and parsing it returns the result. `--name=v` agrees with `v` behind any spelling of the option if and only
  if `v` is not empty. Every shape of token has its reading, and every rejected command line its error.
* Over every program of constructions, moves (self-moves included), copies, hand-overs and destructions, each resource
  is in exactly one place, exactly once; and each operation takes every resource to the place it should.
* Over every run of the allocator, flags, counter and the client's account end in step (and were so all along) if and
  only if the client frees only what it holds; the counter drifts by one with every other free. Provider and client
  name the same byte in every run.
* Over every interleaving, the storage is the last-writer fold of the log, its key views point into live memory of
  the same entry, and queries get exactly one reply for each intersecting entry, or the part of them in front of
  the first reply that fails.

## Modelling choices

* Lengths are unsigned LEB128 (section 7.6 of DWARF Version 5) below 2^64; the repository only shows lengths below
  128, where the code is one byte. Non-minimal codes of at most ten bytes are accepted.
* A boolean is one byte, 0 or 1; any other byte is malformed. Malformed or missing bytes give `Z_EDESERIALIZE`.
* Floats are raw 32-bit or 64-bit patterns, strings are bytes.
* The foreign library fails at most at one call, identified by the length of the buffer; a run stops at its first
  failing call, so this covers every failing run.
* The `max_size()` of a vector is a parameter of its type, at most `PTRDIFF_MAX`. The sum of sizes given to `reserve` is
  taken modulo 2^64.
* A string overload that does not throw assigns its local string to the target also after a failing call; that string is
  then empty.
* A NUL-terminated `argv` buffer holds its token and the NUL; buffers are distinct.
* Addresses are numbers below 2^64; masks and shifts are written as remainder and quotient. `DescribeBits` and
  `AddressBits` show that these are the source's operators, bit by bit.

## Model

| member | source | states |
|---|---|---|
| Wire.PrimRoundTrip | include/zenoh/api/ext/serialization.hxx:128-163 | every scalar and string that fits its width is read back from its bytes, with the following bytes left over |
| Wire.PrimExtension | include/zenoh/api/ext/serialization.hxx:254-283 | a successful primitive read does not depend on bytes behind the ones it consumes |
| Wire.PinnedWords | tests/universal/serialization.cxx:104-113 | the exact bytes of `int32_t` 1234566 and -49245 and of the float 1234.0 |
| Wire.PinnedBytes | tests/universal/serialization.cxx:109-120 | the exact bytes of the 16-bit integers and strings used there |
| Wire.IntegerRanges | include/zenoh/api/ext/serialization.hxx:135-145 | the values of each integer type |
| Wire.ScalarSizes | include/zenoh/api/ext/serialization.hxx:135-145 | the bytes the values of each scalar type take |
| Wire.PrimUnique | include/zenoh/api/ext/serialization.hxx:254-283 | an accepted scalar is the encoding of its value, an accepted string too, up to a length spelled longer than needed |
| CodecRoundTrip.PinnedTuple | tests/universal/serialization.cxx:112-113 | the exact bytes of the tuple of `uint16_t`, `float` and string |
| CodecRoundTrip.PinnedVector | tests/universal/serialization.cxx:119-120 | the exact bytes of the vector of string and `int16_t` pairs |
| Codec.Decode | include/zenoh/api/ext/serialization.hxx:285-398 | for every typed target, result or partial result is of the static type and a failure never reports `Z_OK` |
| CodecRoundTrip.RoundTrip | include/zenoh/api/ext/serialization.hxx:165-406 | decoding an encoding plus `rest` gives the denoted value and leaves `rest`, for every type and every iteration order |
| CodecRoundTrip.InsertAllDict | include/zenoh/api/ext/serialization.hxx:376-398 | inserting pairs one by one keeps the entries already there, then the first entry of each new key |
| CodecPrefix.Extension | include/zenoh/api/ext/serialization.hxx:285-398 | appending bytes to the input of a successful decode changes only what is left over |
| CodecPrefix.Retraction | include/zenoh/api/ext/serialization.hxx:285-398 | and conversely: a successful decode succeeds, with the same value, without any of the bytes it leaves over |
| CodecPrefix.ProperPrefixRejected | include/zenoh/api/ext/serialization.hxx:107-120 | every proper prefix of an encoding is rejected at its type |
| CodecPrefix.EncodingDeterminesValue | include/zenoh/api/ext/serialization.hxx:95-120 | payloads that begin with encodings at one type agree on value and end: the code is prefix-free and determines the value |
| CodecCanonical.Accepted | include/zenoh/api/ext/serialization.hxx:107-120 | every accepted payload begins with an encoding of what is read from it, or with a longer spelling of that encoding |
| CodecInPlace.DecodeMerge | include/zenoh/api/ext/serialization.hxx:285-398 | for any contents of the target: it fails exactly if the fresh target would or a vector has no room for the fresh result; otherwise the fresh result is merged into the contents, with the same cursor |
| CodecInPlace.RoundTripInPlace | include/zenoh/api/ext/serialization.hxx:313-398 | decoding an encoding into an object with contents merges the value, previous elements are never discarded; without room in a vector it is `std::length_error` |
| CodecInPlace.MergeDefault | include/zenoh/api/ext/serialization.hxx:415-420 | a freshly declared object has room, and merging into it yields exactly the decoded value |
| CodecContainers.CrossContainer | include/zenoh/api/ext/serialization.hxx:313-398 | one payload as vector, deque, set or map: the deque's list, its elements, its first-occurrence map; same failures with the same partial contents; only a vector throws on an oversized length |
| CodecContainers.CrossArray | include/zenoh/api/ext/serialization.hxx:326-338 | as `array<T,N>` a payload is accepted if and only if it is accepted as a deque of length `N`, with the same list; a wrong length is `Z_EDESERIALIZE`, other failures are the deque's |
| CodecContainers.FailureKeepsPrefix | include/zenoh/api/ext/serialization.hxx:313-324 | a failing element loop holds exactly the elements decoded before the one that stops it, which fails with the reported code or finds the vector full |
| CodecPartial.ScalarFailure | include/zenoh/api/ext/serialization.hxx:254-283 | after a failing call a number keeps what it held, a string does so after an exception and is empty otherwise |
| CodecPartial.RowFailure | include/zenoh/api/ext/serialization.hxx:285-302 | some component is the failing one: those before it are read, it is as its own run leaves it, those behind it are untouched |
| CodecPartial.ArrayFailure | include/zenoh/api/ext/serialization.hxx:326-338 | some cell is the failing one: those before it have their elements merged in, it is as its own run leaves it, those behind it are untouched; a missing or wrong length leaves all untouched |
| CodecPartial.ContainerFailure | include/zenoh/api/ext/serialization.hxx:313-324 | without a usable length nothing has happened; otherwise the elements before the failing one have been inserted into what was there |
| CodecPartial.ArrayKeepsPrefix | include/zenoh/api/ext/serialization.hxx:326-338 | a fresh array that fails behind its length begins with what a deque would hold after the same failure |
| CodecFlatten.LeavesAreFlat | include/zenoh/api/ext/serialization.hxx:285-302 | no leaf is a tuple or a pair |
| CodecFlatten.Regrouped | include/zenoh/api/ext/serialization.hxx:40-43 | a pair has the leaves of a tuple of two, and a tuple in front of others those of its components in front of them |
| CodecFlatten.EncodeFlat | include/zenoh/api/ext/serialization.hxx:165-181 | tuples and pairs add no bytes: an object writes the bytes of its leaves in order |
| CodecFlatten.DecodeFlat | include/zenoh/api/ext/serialization.hxx:285-302 | reading an object is reading its leaves one by one, also when it fails half way |
| CodecFlatten.AnyNesting | include/zenoh/api/ext/serialization.hxx:40-43 | whatever type the values were written as, any reading type with the same leaves recovers the same leaf values and stops at their end |
| CodecFaults.FaultExact | include/zenoh/api/ext/serialization.hxx:254-398 | a run that makes the failing call ends with its code, holding what the reliable run holds on the payload cut off there; any other run is the reliable run, to the value and the byte |
| CodecFaults.FaultStops | include/zenoh/api/ext/serialization.hxx:254-398 | any success is the reliable one, any failure is the reliable one or carries the library's code |
| CodecFaults.ClearingUnseen | include/zenoh/api/ext/serialization.hxx:275-283 | clearing a string after a failing call has no influence on success, value, cursor or reported failure |
| LengthErrors.ReservesExactly | include/zenoh/api/ext/serialization.hxx:317 | `reserve` does not throw if and only if there is room or the sum of sizes wraps around to something small |
| LengthErrors.NeverTooLong | include/zenoh/api/ext/serialization.hxx:285-398 | a type without a reachable vector never ends in `std::length_error` |
| LengthErrors.OversizedThrows | include/zenoh/api/ext/serialization.hxx:313-318 | for every type with one, the constructed payload does |
| LengthErrors.LengthErrorExactly | include/zenoh/api/ext/serialization.hxx:313-318 | no payload ends in `std::length_error` if and only if the type has no reachable vector |
| ErrorModes.ResultCheck | include/zenoh/api/base.hxx:37-43 | throws exactly for a null `err` and a code other than `Z_OK`; otherwise `*err` becomes the code |
| Deserializers.Deserializer.Into | include/zenoh/api/ext/serialization.hxx:254-311 | the dispatching run refines `Decode`: same contents (a string emptied by a failing call without exception included), cursor, and report in both error modes; no foreign call after a failing step |
| Deserializers.Deserializer.SequenceBegin | include/zenoh/api/ext/serialization.hxx:304-309 | the length is read, or the failure is reported in the mode of `err` |
| Deserializers.Deserializer.IntoContainer | include/zenoh/api/ext/serialization.hxx:313-324 | length, `reserve` for a vector, element loop: the run refines `Decode` from any contents; a length the vector cannot have leaves by `std::length_error` with `*err` still `Z_OK` |
| Deserializers.Deserializer.Fill | include/zenoh/api/ext/serialization.hxx:318-324 | the element loop reaches the outcome of `DecodeMany` (`Filling`) from any contents, for `push_back` and for `insert`, with its report |
| Deserializers.Deserializer.IntoArray | include/zenoh/api/ext/serialization.hxx:326-338 | a wrong length is `Z_EDESERIALIZE` with the array untouched; otherwise the cells are filled in place |
| Deserializers.Deserializer.Deserialize | include/zenoh/api/ext/serialization.hxx:415-420 | whatever became of earlier calls, a fresh object goes through `Decode`, and is returned even when `*err` reports a failure |
| Deserializers.ExtDeserialize | include/zenoh/api/ext/serialization.hxx:112-120 | the value, and how the call is left in each mode; with a null or `Z_OK` err a payload is accepted if and only if the decoder consumes all of it, and extra bytes are `Z_EDESERIALIZE` |
| Deserializers.PayloadOfEncoding | include/zenoh/api/ext/serialization.hxx:95-120 | an encoding is accepted with its value, an encoding with more behind it is `Z_EDESERIALIZE`, a truncated one is an error |
| Deserializers.StaleErrOnEmptyTuple | include/zenoh/api/ext/serialization.hxx:285-295 | with a stale `*err` the modes disagree on the empty tuple |
| Deserializers.StaleErrStays | include/zenoh/api/ext/serialization.hxx:112-120 | a type that makes no foreign call leaves a stale `*err` as it is, on every payload |
| Deserializers.Deserializer.IntoScalar | include/zenoh/api/ext/serialization.hxx:254-283 | the overload for a number or string, with what the target holds after a failure in each mode |
| Deserializers.ModesAgree | include/zenoh/api/ext/serialization.hxx:112-120 | the modes end alike (same code, or `std::length_error` in both) on all payloads and with all faults if and only if `*err` starts as `Z_OK` or the type makes a foreign call |
| Deserializers.ErrKeepsExceptionsAway | include/zenoh/api/ext/serialization.hxx:112-120 | the `err` mode leaves by no exception on all payloads and with all faults if and only if the type has no reachable vector |
| Deserializers.FirstFailureStops | include/zenoh/api/ext/serialization.hxx:254-311 | a failure of the first foreign call is always reported |
| Serializers.WriteExact | include/zenoh/api/ext/serialization.hxx:128-198 | a run breaks exactly if it makes the failing call, with its code and the bytes up to there; otherwise it writes the whole encoding |
| Serializers.FirstFailureStops | include/zenoh/api/ext/serialization.hxx:128-198 | a failure of the first foreign call writes nothing and is always reported |
| Serializers.WriteEncodes | include/zenoh/api/ext/serialization.hxx:165-198 | a run appends exactly the encoding, or, if the library fails, exactly the part of it before the failing call |
| Serializers.Serializer.From | include/zenoh/api/ext/serialization.hxx:128-252 | the dispatching run refines `Write` in both error modes; no foreign call after a failing step |
| Serializers.Serializer.FromSequence | include/zenoh/api/ext/serialization.hxx:183-198 | the length, then every element in iteration order, stopping at the first failure |
| Serializers.Serializer.Serialize | include/zenoh/api/ext/serialization.hxx:410-413 | whatever became of earlier calls, the call appends to what is there as `Write` says |
| Serializers.ExtSerialize | include/zenoh/api/ext/serialization.hxx:100-105 | the bytes are the encoding, or, if the failing call is made, those in front of it, and the code is reported in the mode of `err` |
| SuccessiveCalls.SerializeEach | include/zenoh/api/ext/serialization.hxx:40-43 | one call per value up to the first failure: buffer and report are those of one call on the tuple |
| SuccessiveCalls.DeserializeEach | include/zenoh/api/ext/serialization.hxx:69-72 | one call per type up to the first failure: values, cursor and report are those of one call for the tuple |
| SuccessiveCalls.WriteThenRead | include/zenoh/api/ext/serialization.hxx:40-43 | calls, tuples and pairs in any grouping on either side: with the same leaf types every call succeeds, the leaf values arrive in order, and nothing is left over |
| CliGrammar.ResolveIsLast | examples/getargs.hxx:185-191 | a name stands for the last declaration that lists it |
| CliTokens.OrdinaryExactly | examples/getargs.hxx:174-180 | exactly the tokens without a dash in front, the single dash, and `-abc`-like tokens are positionals |
| CliTokens.SpelledReads | examples/getargs.hxx:226-252 | `-c` and `--name` find their option; a flag stands alone, any other option takes the next token; unknown names and missing values are errors |
| CliTokens.AttachedReads | examples/getargs.hxx:226-252 | `--name=v` finds its option; a flag ignores `v`, any other option takes it unless it is empty |
| CliTokens.DashEqualsReads | examples/getargs.hxx:226-252 | `-=` is the option with the empty name |
| CliTokens.EveryToken | examples/getargs.hxx:174-180 | there are no other tokens |
| CliTheorems.StuckOutcome | examples/getargs.hxx:212-254 | a command line that does not scan ends with the error it gets stuck on, unless there are too many positionals already |
| CliTheorems.RejectedFor | examples/getargs.hxx:212-259 | one that scans is rejected for the first positional too many or the first required argument missing |
| CliTheorems.ParsedMeans | examples/getargs.hxx:193-263 | what an accepted command line means, slot by slot |
| CliTheorems.CutPartitions | examples/getargs.hxx:212-254 | the tokens split exactly into consecutive groups of one or two, each recognisable on its own |
| CliTheorems.ClosedForm | examples/getargs.hxx:193-263 | result and error as a closed form: first positionals fill the required slots, the next ones a prefix of the optional slots, each option is determined by its own occurrences |
| CliTheorems.AcceptedExactly | examples/getargs.hxx:212-259 | a command line is accepted if and only if it scans and has between `required` and `required + optional` positionals |
| CliTheorems.SwapGroups | examples/getargs.hxx:212-254 | swapping neighbouring groups that are not both positionals and not the same option changes neither result nor error |
| CliTheorems.OrderIndependence | examples/getargs.hxx:212-263 | the outcome depends only on the positionals and on each option's occurrences |
| CliTheorems.OptionsFirst | examples/getargs.hxx:212-263 | moving all option groups in front keeps the tokens and the outcome |
| CliRender.RenderRoundTrip | examples/getargs.hxx:182-263 | rendering a well-formed result, every option spelled `-c` or `--name`, and parsing it returns that result |
| CliRender.AttachedSpelling | examples/getargs.hxx:226-252 | `--name=v` and `v` behind any spelling of the option are interchangeable anywhere for a value option and a non-empty `v` |
| CliRender.SpellingsAgree | examples/getargs.hxx:226-237 | all spellings of an option are interchangeable anywhere |
| CliRender.AttachedSpellingExact | examples/getargs.hxx:226-252 | the spellings agree with all continuations if and only if `v` is not empty |
| CliRender.ParseSelector | examples/getargs.hxx:458-465 | the key expression has no `?`, and both parts reassemble to the selector |
| CliRender.SelectorRoundTrip | examples/getargs.hxx:458-465 | a key expression without `?` and any parameters are recovered from their selector |
| CliArgs.WriteInvisible | examples/getargs.hxx:229-231 | writing into the current buffer is invisible through every view recorded so far |
| CliArgs.CliArgParser.BuildIndex | examples/getargs.hxx:185-191 | the alias table holds exactly the declared names, each with the option it stands for |
| CliArgs.CliArgParser.InitialAcc | examples/getargs.hxx:193-210 | slots of the declared kinds with flags unset, defaults, and empty lists |
| CliArgs.CliArgParser.TakePositional | examples/getargs.hxx:213-224 | a positional goes to the next required slot, else the next optional one, else is an error |
| CliArgs.CliArgParser.SplitOption | examples/getargs.hxx:226-237 | the token is cut at its first `=` in place; head, name and attached value read back correctly, also for `-=...` |
| CliArgs.CliArgParser.StoreOption | examples/getargs.hxx:238-252 | a flag is set, or the attached value or the next token is stored; a missing value is an error |
| CliArgs.CliArgParser.ParseArgs | examples/getargs.hxx:182-263 | the loop in place refines the grammar on the original tokens: the views read, at the end, as the parsed texts; buffers change at most at their first `=`; kinds are kept |
| CliArgs.CliArgParser.Run | examples/getargs.hxx:266-276 | help exactly when there are no arguments and some are required, else the parse from token 1 |
| Ownership.StepLedger | include/zenoh/api/base.hxx:71-99 | one operation adds to the places a resource can be in only what the C library created |
| Ownership.StepPlaces | include/zenoh/api/base.hxx:71-99 | after an operation every resource is where the operation takes it, and nowhere else |
| Ownership.StepLives | include/zenoh/api/base.hxx:71-99 | which wrappers live after an operation, and whether a resource was created; releases are only added |
| Ownership.RunSnoc | include/zenoh/api/base.hxx:64-100 | programs run operation by operation |
| Ownership.RunConserves | include/zenoh/api/base.hxx:71-99 | over every legal program each resource is in exactly one place exactly once |
| Ownership.HeldOnce | include/zenoh/api/base.hxx:71-99 | a held resource is held by one wrapper only, and neither released nor handed out |
| Ownership.EndOfProgram | include/zenoh/api/base.hxx:89 | when nothing is held any more, every resource was released or handed out exactly once |
| Ownership.Memory.MoveAssign | include/zenoh/api/base.hxx:73-87 | drops the target, takes the source, leaves a gravestone; both take variants agree; self-move changes nothing |
| Ownership.Memory.MoveConstruct | include/zenoh/api/base.hxx:71 | the new wrapper holds what the source held, the source is a gravestone |
| Ownership.Memory.TakeConstruct | include/zenoh/api/base.hxx:93-99 | the wrapper takes the C struct's handle and nulls it |
| Ownership.Memory.Destroy | include/zenoh/api/base.hxx:89 | what the wrapper holds is released once, a gravestone releases nothing |
| Ownership.Memory.CopyAssign | include/zenoh/api/keyexpr.hxx:200-206 | the old resource is released and replaced by a clone; self-assignment changes nothing |
| Ownership.Memory.MoveToC | include/zenoh/api/interop.hxx:173-179 | the handle is handed out and the wrapper becomes a gravestone |
| Ownership.Memory.Execute | include/zenoh/api/base.hxx:64-100 | running a legal program reaches the state of `Run` and conserves resources |
| Channels.Declare | include/zenoh/api/session.hxx:615-631 | success and failure with `err` return the handler in the result and release nothing; a throw releases it exactly once; no local survives |
| Channels.Get | include/zenoh/api/session.hxx:382-397 | the same for a query, where the handler itself is the result |
| Channels.UndeclareAndDestroy | include/zenoh/api/subscriber.hxx:103-106 | the entity is consumed once; the handler is returned, or released with the object after a throw |
| Closures.SoundExactly | include/zenoh/detail/closures.hxx:25-44 | a C-side schedule neither uses a freed context nor leaks it if and only if it is calls followed by one drop |
| Closures.DropOnceAfterCalls | include/zenoh/detail/closures.hxx:25-28 | on such a schedule `on_drop` runs once, after the last call and right before the context is freed |
| Closures.Context.Follow | include/zenoh/detail/closures.hxx:25-44 | following the schedule leaves exactly that trace and a freed context |
| Shm.MapInvertsDescribe | tests/zenohc/shm_api.cxx:186-203 | for every 64-bit address, the client's mapping of the provider's descriptor is that address, and conversely |
| Shm.MapInvertsDescribeBits | tests/zenohc/shm_api.cxx:343-345 | the same on 64-bit words with the source's operators |
| Shm.DescribeBits | tests/zenohc/shm_api.cxx:188-191 | the descriptor is the address masked, and shifted and masked |
| Shm.AddressBits | tests/zenohc/shm_api.cxx:203 | the address is the chunk or-ed with the shifted and masked segment |
| Shm.Int64DiffExactly | tests/zenohc/shm_api.cxx:206 | the index is the signed difference of the casts exactly when that does not overflow |
| Shm.Drift | tests/zenohc/shm_api.cxx:167-213 | over every run the flags follow the client's account, and the counter drifts by the number of frees of bytes not held |
| Shm.RunInStep | tests/zenohc/shm_api.cxx:167-213 | over every run, provider and client end in step if and only if the client frees only what it holds |
| Shm.InStepThroughout | tests/zenohc/shm_api.cxx:167-213 | and then they are in step after every part of the run |
| Shm.RequestGranted | tests/zenohc/shm_api.cxx:167-231 | a request is granted if and only if a byte is available and the layout is one byte without alignment |
| Shm.RunSnoc | tests/zenohc/shm_api.cxx:167-213 | runs go operation by operation, every request answered in the state it meets |
| Shm.RunSafe | tests/zenohc/shm_api.cxx:167-213 | throughout every such run: free plus live bytes are `count`, no live byte is handed out, allocation takes the lowest free byte and fails only for a wrong layout or when nothing is available |
| Shm.Backend.Alloc | tests/zenohc/shm_api.cxx:167-197 | the scan loop takes the first unset flag, counts down, and describes its address, or changes nothing |
| Shm.Backend.Free | tests/zenohc/shm_api.cxx:199-213 | the flag of the byte computed from the descriptor is cleared and counted up |
| Shm.RunClient | tests/zenohc/shm_api.cxx:148-233 | a client's run on the backend goes through the states of `Run`; every descriptor given out is mapped by the client to the byte the provider means; in step if and only if lawful |
| Shm.RunFresh | tests/zenohc/shm_api.cxx:155-156 | the same from a new backend, where nothing is held; lawful runs are safe throughout |
| Shm.Backend.DescriptorOf | tests/zenohc/shm_api.cxx:186-211 | the descriptor of byte `i` leads `free` back to index `i` and the client to its address |
| Storage.LastWriterExactly | examples/universal/z_storage.cxx:52-68 | a key is stored with a sample if and only if that is its last one and a PUT |
| Storage.Store.OnSample | examples/universal/z_storage.cxx:52-68 | after a sample the map is the last-writer fold of the log, and every key view points into live memory of its own entry |
| Storage.Store.OnQuery | examples/universal/z_storage.cxx:73-82 | exactly one reply for each stored entry that intersects the query, up to the first reply that fails, which throws |
| Storage.Store.Serve | examples/universal/z_storage.cxx:49-82 | over every interleaving, up to the first query whose handler throws, the invariant holds and every query is answered for the log at its moment; without failing replies all events are served |

## Left out

- Networking, discovery, sessions, matching, liveliness and cancellation: they live behind `z_*` calls.
- Key expression canonization and intersection: they only forward to C; `intersects` is a parameter of the storage.
- Channel internals, `Bytes` readers and writers: bytes are a flat sequence.
- Memory exhaustion: allocation never fails here, also not for a large `len` that `max_size()` admits; so a deque, set or map never reaches its own maximal size.
- Keys that compare equal without having the same pattern (0.0 and -0.0, NaN): set elements and map keys compare by value of the model.
- Into: objects are passed in and out by value instead of by reference, so aliasing between a target and another object is not captured.
- Deserialize: indeterminate scalars of a fresh object are modelled as zero; `DecodeMerge` shows the choice is not seen on success.
- DeserializeEach: stops at the first failing call. A caller who goes on finds `*err` overwritten by the next call and the cursor wherever the C library has left it, of which `Deserialize` says only that it is in the payload.
- ParseArgs: the parser's builder methods, which only append declarations, are replaced by the declarations as a constant; error texts are modelled by their kind and the name or token in them.
- `ConfigCliArgParser`, help printing, JSON rendering, priorities and query targets: plumbing, or outside the parser proper.
- Declare: the callback half of the channel and the options passed to C are not part of this model.
- `BatchGuard`, whose defaulted move copies a raw session handle: the exactly-once statement does not extend to it.
- Alloc: flags start cleared and `count` is below 2^31; the C++ constructor leaves the flags indeterminate, and the loop counter is an `int`.
- Free: the difference of the two 64-bit casts is taken modulo 2^64, as the hardware does where C++ leaves overflow undefined.
- OnSample: printing, and the mutex itself; handlers are atomic steps.
- Serve: what the C library does with an exception that leaves a handler.
