# Ohnrscript: models and proofs

This project models the parts of Ohnrscript whose correctness is hardest to see from the code, and
proves what they are for. `dafny verify dfyconfig.toml` checks all of it.

- **The `@cbor` compiler** (`Words`, `Utf`, `CborPlugin`, `CborCode`, `CborCodec`, `CborRoundTrip`,
  `CborValidation`, `CborTruncation`, `Rfc8949`, `Alignment`, `DecoderAgreement`). The visitor that turns a
  class into three lists of statements is a method that pushes onto those lists; what a statement does is a
  function; `toCBOR` and `fromCBOR` are methods that run the lists over a byte array. Proved: the compiler is
  correct for every class; `fromCBOR` undoes `toCBOR` exactly when nothing unrepresentable is in the object;
  a decoder written from RFC 8949 alone reads the output exactly when the keys and types are supported; it
  and `fromCBOR` agree on any map with the class's keys that `fromCBOR` accepts, and which those are is
  settled; the sizing pass is exact; the decorators' bounds hold of every decoded object; and for every class
  and every prefix of an encoding, whether it is accepted.
- **The worker mailbox** (`Mailbox`, `MailboxCalls`, `MailboxDelivery`). One step is one atomic operation of one of any
  number of producers, or of the consumer. Counters are unbounded and the code sees their low 32 bits.
  Proved over all runs: window and slot safety with the exact stall it tolerates, order, conservation, no
  lost wakeup, what the drain at join frees, and what each call does when nothing disturbs it.
- **VirtIO rings and the VLAN argument** (`VirtioRing`, `VlanArgument`), **the AST serializer**
  (`AstSerializer`), **the WebSocket parser** (`WebSocket`), **the cookie scanner** (`Cookie`),
  **sorting** (`Sorting`), **the bump allocator** (`Allocator`) and **fixed-point arithmetic**
  (`FixedPoint`).

How to read the models:

- The generated JavaScript is a template instantiated per class. Here the instantiated statements are
  values of a small language (`SizeStmt`, `WriteStmt`, `ReadStmt`), one constructor per template, and
  the theorems quantify over all property lists, computed keys and unsupported types included.
- A JavaScript string is its sequence of 16-bit units, a class instance a map from keys to values. A
  read past the end of a `Uint8Array` is `undefined`: as a tag it matches nothing, under a shift it is 0,
  as a one-byte length it makes `_offset` NaN, which is modelled by an offset past the end, from which
  every later read is `undefined` too.
- Bit operations are written as `/`, `%` and `Or`; the precondition of `Or` makes Dafny prove that its
  operands share no bit. `Xor` is defined bit by bit.
- `hide` statements in proofs only keep definitions out of the solver's sight.

Where the code does not do what one would expect, the code is modelled as it is and the exact condition
is proved:

- A producer that stalls between loading `tail` and its compare-and-swap while exactly 2^32 messages
  pass reserves a 257th entry: `Mailbox.SafeIffTimely`, `Mailbox.StallOverflows`.
- The drain at join compares 32-bit words with `<`, so it frees nothing when the unread window straddles
  a multiple of 2^32: `MailboxDelivery.DrainReleasesAllIff`, and `MailboxDelivery.LeakHappens` reaches such a
  state.
- `docs/api/ohn-cbor.md` says truncated buffers are handled. It is the last serialised property that decides:
  a boolean is never accepted cut; a number is when its tag is left, with zeros for its missing bytes; a
  string only when the cut leaves 0x78 without the length, and is then ""; an array when its length reads
  as 0 or is missing, or when the tag of its last element is left. `CborTruncation.TruncatedBufferIsAcceptedIff`
  has the exact condition, `CborTruncation.CutNumberReadsZero` an input.
- An array whose head 0x98 is the last byte of the buffer comes back as `[undefined]`, and only then:
  `CborValidation.HoleIffLengthMissing`, with the input `CborValidation.ArrayWithoutLength`.
- `docs/api/ohn-zod.md` calls `maxLength` the maximum string length. The code compares octets, and an
  accepted string is one unit longer exactly when its maxLength octets are ASCII followed by a four-octet
  lead: `CborValidation.StringExceedsMaxLengthIff`, with the input `CborValidation.StringMayExceedMaxLength`.
- `docs/api/ohn-cbor.md` says numbers are variable-length encoded. The code always writes five bytes, which is
  the standard's shortest form exactly from 17 bits on: `DecoderAgreement.NumberIsShortestIff`. It also reads
  nothing but five bytes, so it refuses the standard encoding of `{a: 5}`: `DecoderAgreement.IntegerIsReadIff`,
  `DecoderAgreement.FieldAgrees`, and the input `DecoderAgreement.ShortNumberIsRefused`.
- For every class and object, the output is the CBOR map it should be exactly when every property is
  supported and every key is ASCII with at most 23 characters: `Alignment.GenericDecoding`. Among such keys, a
  computed one or an unsupported type makes it no CBOR item at all: `Rfc8949.UnsupportedIsMalformed`; so can a
  key of 24 characters: `Rfc8949.LongKeyIsMisread`.
- The transmit ring has no fullness test: `VirtioRing.PushIsSafeIffRoom`, and `VirtioRing.FullRingIsReached`
  reaches the full ring from an empty one.
- A decoder driven by tags and lengths misreads a declaration of a pattern with an encoded initialiser:
  `AstSerializer.DecodesIffRegular`, `AstSerializer.PatternIsMisread`.

## Model

| member | source | states |
|---|---|---|
| Utf.Utf8ByteLength | core/src/plugins/babel-plugin-cbor-aot.js:350-375 | the sizing pass counts exactly the octets of the UTF-8 encoding of the string with lone surrogates read as U+FFFD |
| Utf.CharOctets | core/src/plugins/babel-plugin-cbor-aot.js:381-415 | each loop iteration of `_writeString` yields the octets of the next scalar value by the table of RFC 3629 and consumes one unit or a pair |
| Utf.WriteString | core/src/plugins/babel-plugin-cbor-aot.js:379-417 | the octets stored from `offset` are the encoding, all other bytes of the buffer are unchanged, the count returned is its length |
| Utf.CharUnits | core/src/plugins/babel-plugin-cbor-aot.js:332-344 | each loop iteration of `_readString` agrees with the lenient decoder on any octets, reading zeros past the end |
| Utf.ReadString | core/src/plugins/babel-plugin-cbor-aot.js:328-346 | it fails exactly when the string runs past the buffer, otherwise it returns the decoded units |
| Utf.WellFormedVersionAt | core/src/plugins/babel-plugin-cbor-aot.js:388-409 | pairing surrogates from the left replaces exactly the lone ones, unit by unit, and keeps the length |
| Utf.WellFormedVersionIsIdentityOn | core/src/plugins/babel-plugin-cbor-aot.js:388-409 | the replacement changes nothing if and only if the string has no lone surrogate |
| Utf.EncodeIsWellFormedUtf8 | core/src/plugins/babel-plugin-cbor-aot.js:379-417 | whatever the string, the octets written satisfy the grammar of section 4 of RFC 3629 |
| Utf.ReadOfWrite | core/src/plugins/babel-plugin-cbor-aot.js:328-417 | reading back what was written, anywhere in a buffer, gives the string with lone surrogates replaced |
| Utf.WriteOfRead | core/src/plugins/babel-plugin-cbor-aot.js:328-417 | on any well-formed UTF-8, writing what was read restores the octets, and the string read is well formed |
| Utf.Utf16RoundTrip | core/src/plugins/babel-plugin-cbor-aot.js:341-342 | the pair computed for a scalar value above U+FFFF is read as that value |
| Utf.EncodeLength | core/src/plugins/babel-plugin-cbor-aot.js:350-375 | the encoding has one octet for each unit exactly when the string is ASCII, otherwise more |
| Utf.ReadUnitsLength | core/src/plugins/babel-plugin-cbor-aot.js:332-344 | n octets decode to at most n + 1 units, and to n + 1 exactly when they are ASCII followed by a four-octet lead |
| Utf.StrayTailIsDropped | core/src/plugins/babel-plugin-cbor-aot.js:332-336 | a continuation octet where a lead is expected appends nothing |
| Utf.LeadIsTrusted | core/src/plugins/babel-plugin-cbor-aot.js:334-343 | what any other lead appends, as a number of its bits and those of the octets after it, well formed or not, past the end of the text or not |
| CborPlugin.VisitProperty | core/src/plugins/babel-plugin-cbor-aot.js:77-315 | one iteration appends the property's code to each of the three lists, and nothing for a computed key |
| CborPlugin.Visit | core/src/plugins/babel-plugin-cbor-aot.js:40-315 | the three lists pushed statement by statement are the header's code followed by each property's, in order |
| CborCode.RunSize | core/src/plugins/babel-plugin-cbor-aot.js:208-256 | `_size` is the sum over the size statements, and every length constant later code uses has its value |
| CborCode.PutElems | core/src/plugins/babel-plugin-cbor-aot.js:262-278 | the element loop stores five bytes per element in order and touches nothing else |
| CborCode.RunWrite | core/src/plugins/babel-plugin-cbor-aot.js:150-279 | a write statement stores its bytes at `_offset` inside the buffer, or throws exactly when its number is not a 32-bit integer |
| CborCode.TakeElems | core/src/plugins/babel-plugin-cbor-aot.js:296-309 | the element loop of the reader fails on the first bad tag and otherwise returns all elements |
| CborCode.RunRead | core/src/plugins/babel-plugin-cbor-aot.js:153-311 | a read statement has its specified effect on object, offset and error, on any bytes |
| CborCodec.CompileMeans | core/src/plugins/babel-plugin-cbor-aot.js:40-315 | compiler correctness for writing: for every class and object the size program counts, and the write program stores, exactly the encoding, and it throws on the first number that is not int32 |
| CborCodec.CompileReads | core/src/plugins/babel-plugin-cbor-aot.js:40-315 | compiler correctness for reading: on any bytes the read program is the property-by-property decoder |
| CborCodec.UnencodableIs | core/src/plugins/babel-plugin-cbor-aot.js:167-169 | `toCBOR` refuses an object if and only if some serialised number field is not an integer from -2147483648 to 2147483647, and names the first |
| CborCodec.RunWrites | core/src/plugins/babel-plugin-cbor-aot.js:319-325 | the statements run in order with every store in bounds, and the final `_offset` is the number of bytes |
| CborCodec.ToCBOR | core/src/plugins/babel-plugin-cbor-aot.js:318-325 | the buffer holds the encoding, `_offset` ends at its length; it succeeds if and only if every serialised number field is an integer from -2147483648 to 2147483647, and otherwise the error is that of the first one that is not |
| CborCodec.FromCBOR | core/src/plugins/babel-plugin-cbor-aot.js:420-425 | it returns what the property-by-property decoder computes |
| CborRoundTrip.ReadIntOfBytes | core/src/plugins/babel-plugin-cbor-aot.js:194-204 | five written bytes read back as the low 32 bits of n, or of -n-1 for a negative n |
| CborRoundTrip.ReadLengthOfHead | core/src/plugins/babel-plugin-cbor-aot.js:217-242 | each of the four head sizes is read back as its length and the offset after it |
| CborRoundTrip.FieldRoundTrip | core/src/plugins/babel-plugin-cbor-aot.js:150-311 | a field read where it was written assigns the canonical value or raises exactly its own broken bound |
| CborRoundTrip.RoundTrip | core/src/plugins/babel-plugin-cbor-aot.js:45-425 | decoding an encoding followed by any bytes gives the first broken bound, or all fields with exactly the encoding consumed |
| CborRoundTrip.AllAssignedIs | core/src/plugins/babel-plugin-cbor-aot.js:153-310 | the decoded object has exactly the serialised keys, each with its canonical value |
| CborRoundTrip.CanonicalIsIdentityOn | core/src/plugins/babel-plugin-cbor-aot.js:163-279 | a value survives if and only if its strings are well formed and its integers lie in -2^32 .. 2^32-1 |
| CborRoundTrip.RoundTripIffFaithful | core/src/plugins/babel-plugin-cbor-aot.js:45-425 | `fromCBOR(toCBOR(o))` has the serialised fields of `o` unchanged if and only if no bound is broken and every value can be carried |
| CborRoundTrip.EncodingsArePrefixFree | core/src/plugins/babel-plugin-cbor-aot.js:45-98 | no encoding of a class is a proper prefix of another, whatever bounds the objects break, and equal encodings mean equal fields |
| CborValidation.FieldOf | core/src/plugins/babel-plugin-cbor-aot.js:153-310 | the field of a key is what the last property of that key read |
| CborValidation.ScalarOutcome | core/src/plugins/babel-plugin-cbor-aot.js:153-207 | every outcome of a Boolean or number field on any bytes: the tags refused, the value read, and that a number is accepted if and only if min <= n and n <= max |
| CborValidation.TextOutcome | core/src/plugins/babel-plugin-cbor-aot.js:229-246 | every outcome of a string field on any bytes, the test of maxLength before that of the end of the buffer |
| CborValidation.ArrayOutcome | core/src/plugins/babel-plugin-cbor-aot.js:281-310 | every outcome of an array field on any bytes: accepted if and only if each element has its tag, with the elements read |
| CborValidation.DecodedObjectsAreValid | core/src/plugins/babel-plugin-cbor-aot.js:100-311 | any object `fromCBOR` returns, on any bytes, has exactly the declared fields; each has the type of its key's last property, within min and max, strings from at most maxLength octets, except an array whose length byte is missing |
| CborValidation.HoleIffLengthMissing | core/src/plugins/babel-plugin-cbor-aot.js:281-296 | an array field is `[undefined]` if and only if its head byte 0x98 is the last byte of the buffer, and it is then the last serialised property |
| CborValidation.ArrayWithoutLength | core/src/plugins/babel-plugin-cbor-aot.js:281-296 | four bytes that decode to `[undefined]` |
| CborValidation.StringExceedsMaxLengthIff | core/src/plugins/babel-plugin-cbor-aot.js:224-246 | an accepted string is longer than maxLength in units, by one, if and only if its text has maxLength octets, ASCII but for a four-octet lead at the end |
| CborValidation.StringMayExceedMaxLength | core/src/plugins/babel-plugin-cbor-aot.js:224-227 | five bytes that decode to a string of two units although maxLength is 1 |
| CborTruncation.CutInt | core/src/plugins/babel-plugin-cbor-aot.js:194-204 | an integer cut after its tag is read with zeros for its missing bytes |
| CborTruncation.CutText | core/src/plugins/babel-plugin-cbor-aot.js:229-246 | a text cut short is refused except when the cut leaves 0x78 without its length byte |
| CborTruncation.CutArray | core/src/plugins/babel-plugin-cbor-aot.js:281-310 | a cut array is accepted if and only if its length reads as 0 or is missing, or the tag of its last element is left |
| CborTruncation.CutField | core/src/plugins/babel-plugin-cbor-aot.js:150-311 | for each kind, exactly when a field is accepted up to a cut, and the value a cut number gets |
| CborTruncation.CutFields | core/src/plugins/babel-plugin-cbor-aot.js:150-311 | a cut in a run of fields gives an error or leaves `_offset` at or past the end |
| CborTruncation.TruncatedBufferIsAcceptedIff | core/src/plugins/babel-plugin-cbor-aot.js:97-311 | for every class, encodable object and prefix, the prefix is accepted if and only if the fields before the last serialised one break no bound and that one tolerates the cut |
| CborTruncation.CutNumberReadsZero | core/src/plugins/babel-plugin-cbor-aot.js:194-207 | the encoding of 0x12345678 cut after the tag decodes to 0 |
| Rfc8949.TextItemAt | core/src/plugins/babel-plugin-cbor-aot.js:216-222 | a generic decoder reads the written head and octets as one text item |
| Rfc8949.ElemItemsAt | core/src/plugins/babel-plugin-cbor-aot.js:262-278 | a generic decoder reads the element loop's output as that many integers |
| Rfc8949.AllItemsAt | core/src/plugins/babel-plugin-cbor-aot.js:77-315 | the fields are read as the key and value items of the properties, in order |
| Rfc8949.UnsupportedIsMalformed | core/src/plugins/babel-plugin-cbor-aot.js:77-86 | with a computed key or an unsupported type the header promises more items than follow, and the output is no well-formed item |
| Rfc8949.KeyItemAt | core/src/plugins/babel-plugin-cbor-aot.js:88-95 | a key is read back as itself if and only if it is ASCII with at most 23 characters |
| Rfc8949.LongKeyIsNeverRead | core/src/plugins/babel-plugin-cbor-aot.js:88-95 | no printable key of 24 or more characters is read as itself, whatever bytes follow it |
| Rfc8949.LongKeyIsMisread | core/src/plugins/babel-plugin-cbor-aot.js:88-92 | with a key of 24 characters the output is not a well-formed item |
| Alignment.ArrayOutruns | core/src/plugins/babel-plugin-cbor-aot.js:251-279 | an array read too late, even with a head found inside its own bytes, ends past where it was written to |
| Alignment.KeyNeverEndsInSmall | core/src/plugins/babel-plugin-cbor-aot.js:88-95 | no key, read in place or too late, ends inside the bytes of a small number written after it |
| Alignment.KeyInPlaceIff | core/src/plugins/babel-plugin-cbor-aot.js:88-95 | any key is read back as itself, and no further, if and only if it is ASCII with at most 23 characters |
| Alignment.FieldsOutrun | core/src/plugins/babel-plugin-cbor-aot.js:77-315 | for any class and object, keys and values are read up to their end only when every key was read in place, short and ASCII |
| Alignment.GenericDecoding | core/src/plugins/babel-plugin-cbor-aot.js:50-98 | for every class and object, a decoder written from section 3 of RFC 8949 reads the output as one map with the class's keys and values in order, and nothing after it, if and only if every property is supported and every key is ASCII with at most 23 characters |
| DecoderAgreement.OutputMeansTheSame | core/src/plugins/babel-plugin-cbor-aot.js:45-425 | end to end: both decoders accept an output that breaks no bound and end at its end, and each field `fromCBOR` assigns is what the generic decoder's item under the same key denotes |
| DecoderAgreement.NumberIsShortestIff | core/src/plugins/babel-plugin-cbor-aot.js:163-180 | five bytes are the shortest form of a number if and only if it is at least 2^16 or less than -2^16 |
| DecoderAgreement.IntegerIsReadIff | core/src/plugins/babel-plugin-cbor-aot.js:194-204 | of the well-formed items, the reader takes exactly the integers in five bytes, for what they are |
| DecoderAgreement.ShortNumberIsRefused | core/src/plugins/babel-plugin-cbor-aot.js:194-204 | the standard encoding of a 5 under the key "a", which a generic decoder reads and `fromCBOR` refuses |
| DecoderAgreement.FieldAgrees | core/src/plugins/babel-plugin-cbor-aot.js:150-311 | on any bytes, where a well-formed item is, exactly when a field accepts it, and then both decoders take it for the same value and end at the same offset |
| DecoderAgreement.DecodersAgree | core/src/plugins/babel-plugin-cbor-aot.js:45-425 | on any map with the class's keys in place, `fromCBOR` accepts exactly when it accepts every value, and then both decoders end at the same offset and every field means what the item of its key means |
| Mailbox.StepKeepsInv | packages-llvm/workers.ohn/src/bindings.c:49-124 | the invariant (counters, slots, reservations, the consumer's position) is kept by every atomic step |
| Mailbox.ReserveHasRoom | packages-llvm/workers.ohn/src/bindings.c:53-62 | when the compare-and-swap succeeds after a test on stale 32-bit copies, the ring has room and the slot is NULL |
| Mailbox.ReachableIsSafe | packages-llvm/workers.ohn/src/bindings.c:49-101 | in every reachable state 0 <= head - tail <= 256, popped is a prefix of pushed, slots outside the window are NULL |
| Mailbox.PassMany | packages-llvm/workers.ohn/src/bindings.c:49-101 | for any n there is a run in which n messages go through while one producer stalls before its compare-and-swap |
| Mailbox.StallOverflows | packages-llvm/workers.ohn/src/bindings.c:53-62 | a reachable state with 257 entries, when a stall may span 2^32 messages |
| Mailbox.SafeIffTimely | packages-llvm/workers.ohn/src/bindings.c:49-101 | all runs of any number of producers are safe if and only if no compare-and-swap succeeds 2^32 or more messages past the tail its producer loaded |
| MailboxCalls.LoopChoices | packages-llvm/workers.ohn/src/bindings.c:54-62 | a producer returns -1 if and only if its 32-bit copies are 256 or more apart, and otherwise its compare-and-swap can succeed if and only if `head` has the word it loaded |
| MailboxCalls.PushAlone | packages-llvm/workers.ohn/src/bindings.c:49-78 | from any state of the invariant, an undisturbed push appends the pointer, fills its slot and posts if the worker sleeps, if fewer than 256 entries are queued, and otherwise returns -1 and changes nothing |
| MailboxCalls.RetryAlone | packages-llvm/workers.ohn/src/bindings.c:54-62 | after a failed compare-and-swap the next turn of the loop has a fresh head and completes the push |
| MailboxCalls.PopAlone | packages-llvm/workers.ohn/src/bindings.c:82-101 | an undisturbed pop returns the oldest message and NULLs its slot, or changes nothing when there is none or it is not stored yet |
| MailboxCalls.WaitsIffEmpty | packages-llvm/workers.ohn/src/bindings.c:108-114 | whatever happened since the flag was set, the double check lets the worker wait if and only if the queue is empty, and otherwise it runs again with its flag clear |
| MailboxCalls.SleepAlone | packages-llvm/workers.ohn/src/bindings.c:104-124 | an undisturbed sleep leads from running to waiting if and only if the queue is empty |
| MailboxCalls.WakeAlone | packages-llvm/workers.ohn/src/bindings.c:116-123 | a waiting worker can go on if and only if there is a post, which it takes, with its flag clear afterwards |
| MailboxCalls.WakesFollowPosts | packages-llvm/workers.ohn/src/bindings.c:67-123 | in every run the semaphore is the posts made less the wakes taken |
| MailboxCalls.SleepPushWakePop | packages-llvm/workers.ohn/src/bindings.c:49-124 | a worker sleeps on an empty mailbox, a push wakes it, and its next pop returns the pushed pointer |
| MailboxDelivery.PublishesOverNull | packages-llvm/workers.ohn/src/bindings.c:64-65 | the publishing store always hits a NULL slot |
| MailboxDelivery.StepConserves | packages-llvm/workers.ohn/src/bindings.c:49-101 | every step keeps pushed = popped + held + in slots + reserved, as multisets |
| MailboxDelivery.NothingIsLost | packages-llvm/workers.ohn/src/bindings.c:49-101 | in every reachable state no message is lost or duplicated, and pops follow the order of the compare-and-swaps |
| MailboxDelivery.PopMissIsInFlight | packages-llvm/workers.ohn/src/bindings.c:92-96 | when pop finds NULL in a non-empty queue, some producer has reserved that very entry and not stored it |
| MailboxDelivery.StepKeepsWakeInv | packages-llvm/workers.ohn/src/bindings.c:67-74 | every step keeps: a waiting consumer with a non-empty queue has a post made or on its way |
| MailboxDelivery.NoLostWakeup | packages-llvm/workers.ohn/src/bindings.c:59-124 | in every reachable state with a waiting consumer and a non-empty queue, the semaphore is positive or at most three steps of one producer make it so |
| MailboxDelivery.Drain | packages-llvm/workers.ohn/src/bindings.c:152-158 | the drain loop frees the non-NULL slots from tail to head in order and clears them |
| MailboxDelivery.DrainReleasesAllIff | packages-llvm/workers.ohn/src/bindings.c:147-158 | after producers finish, popped plus freed is exactly pushed and every slot is NULL if the low word of tail is at most that of head, and otherwise nothing is freed although messages are left |
| MailboxDelivery.LeakHappens | packages-llvm/workers.ohn/src/bindings.c:147-158 | a run of two producers after which a message is left and the drain frees nothing |
| VirtioRing.PushTxRing | packages-llvm/ohn-kernel/boot/boot.c:373-420 | the method leaves memory as the six stores of a push leave it |
| VirtioRing.AfterIs | packages-llvm/ohn-kernel/boot/boot.c:390-413 | index, every ring entry and every descriptor after each of the six stores |
| VirtioRing.FlagsAre | packages-llvm/ohn-kernel/boot/boot.c:411-413 | the last store of a push sets the flags to 1, the others leave them |
| VirtioRing.PushRefinesPlain | packages-llvm/ohn-kernel/boot/boot.c:385-413 | the packed half-word updates refine a 256-entry ring of 16-bit entries with an index modulo 2^16 |
| VirtioRing.EveryStoreIsPublished | packages-llvm/ohn-kernel/boot/boot.c:390-413 | with room, after every single store each entry the device may fetch names a fully written descriptor of its request |
| VirtioRing.FullRingIsOverwritten | packages-llvm/ohn-kernel/boot/boot.c:385-395 | in a full ring the fourth store destroys the oldest outstanding request |
| VirtioRing.PushIsSafeIffRoom | packages-llvm/ohn-kernel/boot/boot.c:373-420 | a push is safe for every request if and only if fewer than 256 are outstanding |
| VirtioRing.StepKeepsConsistent | packages-llvm/ohn-kernel/boot/boot.c:390-413 | every single step, one store of a push or one consumption between stores, keeps the ring published |
| VirtioRing.RunsStayPublished | packages-llvm/ohn-kernel/boot/boot.c:373-420 | in every state of every run from an index of 0, the device consuming at any moment, each published entry names its request's descriptor |
| VirtioRing.PassRequests | packages-llvm/ohn-kernel/boot/boot.c:373-420 | for any n there is a run in which n requests are pushed and consumed, past 256 and past the wrap of the index |
| VirtioRing.FullRingIsReached | packages-llvm/ohn-kernel/boot/boot.c:373-420 | from any memory with index 0, after any number of consumed requests, a run leads to 256 outstanding ones, all published, and the next push destroys the oldest |
| VirtioRing.PopulateRxRing | packages-llvm/ohn-kernel/boot/boot.c:426-476 | after the two loops the index is 256, the flags are 1 and entry j names descriptor j, a writable 2048-byte buffer of its own |
| VlanArgument.ParseVlanArg | packages-llvm/ohn-kernel/boot/boot.c:532-553 | at most 4095, the digits after the first tag among 1024 characters, 0 without a tag, and no read past the terminator |
| VlanArgument.PrintVlanStatus | packages-llvm/ohn-kernel/boot/boot.c:556-577 | for every number the buffer of eight can hold, the characters written are its decimal digits, most significant first |
| VlanArgument.EightDigits | packages-llvm/ohn-kernel/boot/boot.c:564-570 | the buffer of eight suffices exactly below 10^8 |
| VlanArgument.NoLeadingZero | packages-llvm/ohn-kernel/boot/boot.c:564-576 | the digits shown are the shortest decimal form |
| VlanArgument.ParsedIs | packages-llvm/ohn-kernel/boot/boot.c:538-549 | for any digits after a first tag, the value is that of the first five, at most 4095 |
| VlanArgument.ParseUndoesPrint | packages-llvm/ohn-kernel/boot/boot.c:532-577 | for every v up to 4095, any prefix without a tag and any non-digit after, parsing the shown digits gives v |
| AstSerializer.Shape | compiler/src/shim/serializer.js:71-96 | a node is dropped exactly when its encoding is empty, and otherwise its header's length is the whole encoding |
| AstSerializer.SerializeIs | compiler/src/shim/serializer.js:18-97 | with the length check made at every text and node, `serialize` throws exactly when the whole encoding has 2^32 bytes or more, and otherwise returns it |
| AstSerializer.SmallProgram | compiler/src/shim/serializer.js:18-97 | the bytes of `const a = 1; { "b" }`, one by one |
| AstSerializer.SkippingVisitsChildren | compiler/src/shim/serializer.js:81-96 | skipping by header length visits exactly the encoded children and ends at the parent's end |
| AstSerializer.DeclarationNode | compiler/src/shim/serializer.js:37-55 | what the decoder sees of a declaration, named or not |
| AstSerializer.DecodesIffRegular | compiler/src/shim/serializer.js:18-97 | a decoder driven by tags and lengths, with its own table of declaration kinds, recovers the normalised tree if and only if no declaration binds a pattern to an encoded initialiser |
| AstSerializer.SerializedDecodesIffRegular | compiler/src/shim/serializer.js:18-97 | the same of whatever `serialize` returns without a RangeError |
| AstSerializer.PatternIsMisread | compiler/src/shim/serializer.js:43-54 | `let {} = 0` does not decode to its normalised tree |
| WebSocket.Unmask | packages/ohn-ws/src/ohn-ws.js:42-48 | the loop xors each payload byte with the key byte read through the aliasing view, and leaves every other byte |
| WebSocket.XorIsBitwise | packages/ohn-ws/src/ohn-ws.js:46 | each bit of the byte stored is set if and only if the bits of payload and key differ |
| WebSocket.MaskedLetter | packages/ohn-ws/src/ohn-ws.js:8-55 | a masked frame of seven bytes, its metadata and its unmasked letter |
| WebSocket.ParseFrame | packages/ohn-ws/src/ohn-ws.js:8-55 | metadata as specified, nothing changed when it returns null, otherwise only the payload |
| WebSocket.LengthFieldOfHeader | packages/ohn-ws/src/ohn-ws.js:16-28 | each of the three length forms of section 5.2 of RFC 6455 is read back |
| WebSocket.MaskTwice | packages/ohn-ws/src/ohn-ws.js:45-47 | unmasking undoes masking for every payload and key |
| WebSocket.FrameRoundTrip | packages/ohn-ws/src/ohn-ws.js:8-55 | a frame built per sections 5.2 and 5.3 of RFC 6455, followed by any bytes, parses to its metadata with the payload unmasked in place and every other byte unchanged |
| WebSocket.NullIffIncomplete | packages/ohn-ws/src/ohn-ws.js:9-37 | null if and only if no complete frame starts the buffer |
| Cookie.ScanPair | packages/ohn-cookie/src/ohn-cookie.js:22-60 | one segment's pointers are the trimmed parts before and after its first '=' |
| Cookie.ScanCookies | packages/ohn-cookie/src/ohn-cookie.js:11-73 | the pointers' contents are the header split on ';', cut at the first '=', trimmed, a blank last segment dropped; each pointer stands where its segment's key and value are, a missing value at the end of the key |
| Cookie.GetCookie | packages/ohn-cookie/src/ohn-cookie.js:78-103 | the value of the first pair whose key is the wanted one, or none |
| Cookie.PairsOfJoin | packages/ohn-cookie/src/ohn-cookie.js:11-73 | scanning a header joined from clean pairs returns those pairs |
| Sorting.SortSorts | examples/sorting.ohn:43-61 | the reference sort yields a sorted permutation |
| Sorting.Pass | examples/sorting.ohn:21-35 | after a pass the part past the last swap is sorted and bounds what is before it, and the window shrinks |
| Sorting.BubbleSort | examples/sorting.ohn:18-38 | the first n elements become the sorted permutation, the rest is unchanged |
| Sorting.InsertionSort | examples/sorting.ohn:43-61 | the same result as bubble sort |
| Sorting.SortedIsUnique | examples/sorting.ohn:18-61 | any two sorting algorithms leave the same array |
| Sorting.MidIsMiddle | examples/sorting.ohn:71 | for any window of fewer than 2^31 elements the 32-bit midpoint halves it |
| Sorting.BinarySearch | examples/sorting.ohn:66-82 | -1 if and only if the target is absent, otherwise an index of it, with a 32-bit midpoint for n up to 2^31-1 |
| Allocator.Heap.Alloc | compiler/src/shim/ohnrscript-runtime.c:51-80 | exactly when it succeeds, the key it returns and the block it adds, over any history |
| Allocator.Heap.ResolveSafe | compiler/src/shim/ohnrscript-runtime.c:31-47 | accepts exactly the slices whose exact end is inside the heap, despite the 32-bit sum |
| Allocator.KeysFollow | compiler/src/shim/ohnrscript-runtime.c:72-79 | the first key is 0 and each later one is where the block before ends |
| Allocator.BlocksAreApart | compiler/src/shim/ohnrscript-runtime.c:51-114 | after any run of allocations blocks are aligned, pairwise disjoint and inside 64 MB |
| FixedPoint.DotProduct | examples/fixed-point-math.ohn:47-57 | the loop accumulates the rounded products |
| FixedPoint.DotProductIsSumOfFloors | examples/fixed-point-math.ohn:47-57 | without overflow the result is the sum of the products, each rounded down to a 64th |
| FixedPoint.DotProductWraps | examples/fixed-point-math.ohn:47-57 | with products in range the result is that sum modulo 2^32, as a signed 32-bit integer |
| FixedPoint.DotProductError | examples/fixed-point-math.ohn:47-57 | without overflow it never overestimates and is off by less than one unit per component |
| FixedPoint.LerpIsBetween | examples/fixed-point-math.ohn:63-67 | exact at both ends, between them for either order, and a + (b - a) * t rounded down to a 64th |

## Left out

- Babel's syntax trees, decorator stripping and the template fallback: the model starts from the properties the visitor extracts.
- JavaScript values outside a field's declared type, and -0: a number is an integer or one that `Number.isInteger` rejects.
- Array elements that are not integers, which the shifts truncate without an error, and elements beyond 2^53, for which `-elem - 1` is rounded.
- Bounds that are literals other than non-negative integers, such as 0.5 or a string; a negative one has no literal value and never holds a value back.
- Classes whose generated JavaScript does not parse: a string-literal key that is no identifier, or two properties of one key whose generated constants clash. The theorems quantify over such classes too.
- Texts of 2^32 octets or more, beyond what a JavaScript engine can hold.
- Rfc8949: indefinite-length items are not decoded; the plugin never writes one.
- C11 weak memory: the atomics of the mailbox are sequentially consistent steps.
- The -1 of `sys_mpsc_push` may be spurious when its copies are stale; the model allows it and claims nothing about it.
- Overflow of the semaphore's count, a wait interrupted by a signal, and the Apple variant of the semaphore.
- `push_irq` and `poll_interrupt`: an ordinary bounded queue.
- Port I/O, fences, interrupt tables and serial output of the kernel; the ring's memory is what is modelled.
- A null command line, for which `parse_vlan_arg` returns 0.
- The parser behind the AST serializer, its warnings, and numbers beyond their eight IEEE 754 bytes.
- Doubles in the WebSocket length: above 2^53 the source's sum is rounded, but such a frame is incomplete either way.
- `Buffer.toString` in `getCookie`: the model returns the bytes of the value.
- `linearSearch`, `pack`, `ohn_resolve_ptr` and the memory copies: one-liners.
- The two allocation functions differ in the element type only and are one method here.
- The self-hosted compiler and the kernel, network and database modules written in Ohnrscript are not part of this model.
