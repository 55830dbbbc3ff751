# Verified model of the STM32N6 IoT reference firmware

The firmware keeps its configuration in a small key/value store, signs with hardware-backed ECDSA keys, and is
provisioned over a serial console. This project models the parts of that code whose correctness depends on state
or on octets, and proves what they promise:

* **Key/value store** (`KvNv`, `KvModel`, `KvCache`, `KvFront`, `KvNvPsa`). A write-back cache over one littlefs
  file per key. `KvCache.Cache` is the C module statement by statement: a slot is type, length, pointer-sized
  union and pending flag; values longer than a pointer live in blocks of an explicit heap. Every method is proved
  to be one step of the state machine in `KvModel`, where the theorems about whole runs are: the dirty-flag
  invariant, durability, partial commits, "reads return the last write", declared types, and how many heap blocks
  are lost. littlefs may fail in any operation, at start-up as well as in a commit; what it answers is a parameter
  of each step.
* **ECDSA signatures** (`Asn1`, `EcdsaDer`, `EcdsaEncodePsa`, `EcdsaEncodePkcs11`, `EcdsaDecode`). Two encoders
  of Ecdsa-Sig-Value, one of them in place from the end of the buffer that holds its input, and the decoder. The
  DER primitives follow the mbed TLS sources that the repository carries.
* **PEM on the console** (`Base64`, `Pem`). The printer and the line-by-line reader, with the exact outcome of
  reading back what was printed.
* **Console** (`LineEditor`, `CliCommand`, `UartReceive`, `ConsoleRedraw`). The line editor, command matching and
  tokenizing, the receive double buffer and the redraw of the prompt around log lines.
* **Public keys** (`Spki`). Two SubjectPublicKeyInfo builders that must agree.

Buffers and C objects whose fields change are arrays and classes here; the two protocols between interrupts and
tasks are state machines over their steps. Sizes are those of the 32-bit target (`sizeof(void *)` and
`sizeof(size_t)` are 4, the stored header has 8 octets: type and length, little-endian).

## Where the code does not do what one would expect

Each of these is kept in the model and stated with its exact condition.

* `xReadPemFromCliAsDer` runs its base64 decoder on lines it has already refused. A line after the header whose
  base64 fills the room left exactly makes the length assertion fail and stops the device; the condition is on the
  line's digits and padding (`Pem.StuckIff`). A printed object of 2048 octets does this (`Pem.PrintedReadsBack`).
* `KVStore_setBlob` and `KVStore_setString` accept values of 256 octets and more. Once committed, such a value
  stops the device at every start (`KvModel.CommitIsDurable`, `KvModel.LongValueStopsDevice`).
* The littlefs writer ignores the result of syncing, so a commit can return success without being durable. After a
  reported commit a faultless start restores a pending slot if and only if its file was synced, or the failed sync
  left the very same file, and any other slot if and only if its last load had not failed
  (`KvModel.CommitIsDurableIff`, with `KvModel.UnsyncedCommitIsNotDurable` as the smallest case). Whatever had failed
  to load, no write is lost (`KvModel.LastWriteSurvivesIff`).
* A file that was created but never written (a failed sync, power lost in between, or an open that failed too late) is
  shorter than its header. The length query subtracts without looking, and the start fails from then on
  (`KvModel.StubStopsDevice`).
* A value that cannot be read at start-up leaves a slot that is neither set nor pending over a present file
  (`KvModel.FailedLoadHidesFile`). A slot that is not pending agrees with its file if and only if the last start found
  a well-formed file or none, and its read did not fail (`KvModel.DirtyFlagIff`); after a failed one the size query
  reports the length that was not loaded (`KvFront.ReportedSizeIff`).
* A file that is longer than a pointer but announces at most a pointer's worth makes the start lose a block and take
  octets of the block's address for the value (`KvModel.MisannouncedIff`, `KvModel.MisannouncedFile`).
* Besides that start, two kinds of writes lose a heap block: one that shrinks a value from heap to pointer size, and the
  first one to a key whose failed load had left a heap-sized block (`KvModel.DroppedInHistory`,
  `KvModel.FailedLoadLosesBlock`, `KvCache.Cache.HeapConservation`).
* A default string or blob of which at most four octets are copied yields octets of its address
  (`KvFront.DefaultCopyIff`, `KvFront.ShortDefaultIsAddress`), and the getter for unsigned base values asks for the wrong type
  (`KvFront.ScalarRoundTripIff`).
* The string getter writes its terminator in front of the buffer when it is given an empty one
  (`KvFront.Store.GetString`, `KvFront.StringRoundTrip`), and the in-place signature encoder moves s in front of a
  buffer that does not hold even one component (`EcdsaEncodePsa.SigAsn1FromPsa`).
* The public-key builder passes positive octet counts through the error translation. Counts of 18 and 22 alias error
  codes, so of the eleven curves in the table only the two with an identifier of eight octets can be read: P-256
  and secp192r1 (`Spki.ReadPublicKey`, `Spki.P384CountIsError`).
* A redraw that finds the transmit stream nearly full is cut off, and the screen then shows something else than prompt
  and buffer (`ConsoleRedraw.LogIsConsistentIff`).
* On a line that starts with a space, parameter lookup is off by one from `argv` (`CliCommand.GetParameter`).
* The line editor stores and echoes control characters (`ConsoleRedraw.KeptOctetShownIff`).

## Model

| member | source | states |
|---|---|---|
| `KvNv.ParseOfFileOf` | Appli/Common/kvstore/kvstore_nv_littlefs.c:41-45 | the type/length header and value written to a file are recovered from its octets |
| `KvNv.FileLayout` | Appli/Common/kvstore/kvstore.h:32-42 | the octets of a file: the place of its type in the enumeration, the length with its least significant octet first, the value |
| `KvNv.NvStore.GetLength` | Appli/Common/kvstore/kvstore_nv_littlefs.c:85-101 | the size less that of the header in 32-bit arithmetic, for files of every size; 0 when the file is absent or cannot be examined |
| `KvNv.NvStore.ReadValue` | Appli/Common/kvstore/kvstore_nv_littlefs.c:108-186 | for every file: succeeds exactly when nothing fails and the file holds as many octets as its header announces, and returns those; otherwise type and length are left alone; the assertion fails exactly when a header that was read announces 256 octets or more |
| `KvNv.NvStore.WriteValue` | Appli/Common/kvstore/kvstore_nv_littlefs.c:196-268 | each write appends as many octets as littlefs reports; the result is true exactly when the open succeeded and both counts were full; then, once synced, the file is header and value, and otherwise, where removing works, there is no file |
| `KvNv.FileAfterCases` | Appli/Common/kvstore/kvstore_nv_littlefs.c:244-264 | the outcomes of a write by the answers of littlefs alone |
| `KvNv.TakenWhole` | Appli/Common/kvstore/kvstore_nv_littlefs.c:233-246 | the open file holds header and value exactly when both writes took everything |
| `KvCache.Cache.AllocateDataBuffer` | Appli/Common/kvstore/kvstore_cache.c:88-101 | long values get a new block of the asked size, short ones a zeroed union; nothing else changes |
| `KvCache.Cache.ClearDataBuffer` | Appli/Common/kvstore/kvstore_cache.c:103-117 | exactly the slot's own block is freed, and it was live |
| `KvCache.Cache.ReallocDataBuffer` | Appli/Common/kvstore/kvstore_cache.c:119-132 | growing frees the old block and takes a new one; shrinking keeps pointer and block as they are |
| `KvCache.Cache.PrepareSlot` | Appli/Common/kvstore/kvstore_cache.c:205-237 | the slot gets room for the value, its type, and a pending flag that is set exactly when type or octets differ or it was set before |
| `KvCache.Cache.StageValue` | Appli/Common/kvstore/kvstore_cache.c:205-247 | afterwards the slot reads as the new value whichever branch ran, and at most its own block was freed or lost |
| `KvCache.Cache.WriteEntry` | Appli/Common/kvstore/kvstore_cache.c:195-248 | a cache write is one `Set` step: one key changes, every long slot still owns a distinct live block that is large enough |
| `KvCache.Cache.InitSlot` | Appli/Common/kvstore/kvstore_cache.c:141-161 | one file of any contents becomes one slot under any read faults, or the start halts on a stub or on a value too long to read; at most one block is lost |
| `KvCache.Cache.CacheInit` | Appli/Common/kvstore/kvstore_cache.c:137-163 | start-up turns flash of any contents into the cache under any read faults, with all memory accounted for, and halts exactly when some file that is examined is a stub or is read as 256 octets or more |
| `KvCache.Cache.CopyValue` | Appli/Common/kvstore/kvstore_cache.c:251-290 | a read copies the prefix that fits, reports type and full length, and touches nothing when the key is unset |
| `KvCache.Cache.CommitChanges` | Appli/Common/kvstore/kvstore_cache.c:292-309 | one `Commit` step over all pending slots; true exactly when for each of them the file opened and littlefs took header and value in full |
| `KvCache.Cache.HeapConservation` | Appli/Common/kvstore/kvstore_cache.c:88-132 | live blocks are exactly the long entries plus the blocks dropped so far |
| `KvCache.ReplaceSlot` | Appli/Common/kvstore/kvstore_cache.c:88-132 | changing one slot keeps ownership of all others: no block is shared, none is lost unaccounted |
| `KvCache.OwnedCount` | Appli/Common/kvstore/kvstore_cache.c:51-66 | long entries and owned blocks are equally many |
| `KvModel.RunTracks` | Appli/Common/kvstore/kvstore_cache.c:137-309 | since a start, under any writes and failed commits, a slot is pending, which takes a write, or both it and its file are what the start found and made of it |
| `KvModel.HistoryTracks` | Appli/Common/kvstore/kvstore_cache.c:137-309 | the same invariant in every reachable state, for flash of any contents and any faults |
| `KvModel.EveryRunIsHistory` | Appli/Common/kvstore/kvstore_cache.c:137-309 | every state in which a device is up is reached by a history with a last start |
| `KvModel.LoadedMatchesIff` | Appli/Common/kvstore/kvstore_cache.c:144-160 | what a start makes of a file agrees with it exactly when the file is well formed and no read failed |
| `KvModel.DirtyFlagIff` | Appli/Common/kvstore/kvstore_cache.c:137-309 | in every reachable state a slot that is not pending is identical to its file, or both are absent, if and only if the last start found nothing or a well-formed file that it read without a fault |
| `KvModel.FailedLoadHidesFile` | Appli/Common/kvstore/kvstore_cache.c:147-159 | a failed read leaves a slot that is not set over a present file |
| `KvModel.MisannouncedIff` | Appli/Common/kvstore/kvstore_cache.c:150-159 | the announced octets of a file are read, wherever the allocator puts them, exactly when no block has to shrink to a value of pointer size |
| `KvModel.MisannouncedFile` | Appli/Common/kvstore/kvstore_cache.c:150-159 | a file of 20 octets that announces three: a block is lost and an address is read |
| `KvModel.RunKeepsFormat` | Appli/Common/kvstore/kvstore_nv_littlefs.c:196-268 | a well-formed file stays so over every run in which littlefs keeps the format of that file, whatever becomes of the others |
| `KvModel.RunKeepsTypes` | Appli/Common/kvstore/kvstore.c:134-204 | in every run of typed writes, the stored type of a key is none or the declared one, in the cache and on flash, when what littlefs leaves behind has that type too |
| `KvModel.SlotIsDurableIff` | Appli/Common/kvstore/kvstore_nv_littlefs.c:254-267 | after a reported write, a faultless start restores a pending slot if and only if its write reached the flash, and any other one if and only if its last load had not failed |
| `KvModel.CommitIsDurableIff` | Appli/Common/kvstore/kvstore_cache.c:292-309 | the same for every slot after any history and a commit that returns true, whatever the other files hold and whichever other reads fail |
| `KvModel.CommitIsDurable` | Appli/Common/kvstore/kvstore_cache.c:292-309 | the whole cache is restored if and only if every slot survives so, and then the start comes up exactly when every value is shorter than 256 octets and no stub is left |
| `KvModel.DurabilityOverRuns` | Appli/Common/kvstore/kvstore_cache.c:137-309 | from well-formed flash, after any run: faultless loads at the last start and a reported, synced commit suffice for the next start to restore every slot, exactly when every value is short enough |
| `KvModel.PartialCommit` | Appli/Common/kvstore/kvstore_nv_littlefs.c:211-267 | a file for which opening, closing and removing behave is as before, as staged, or absent; slots that were not pending keep theirs |
| `KvModel.NoSpaceIsReported` | Appli/Common/kvstore/kvstore_nv_littlefs.c:244-263 | when littlefs takes no or too little data, the commit is not reported as good, and where removing works no file is left |
| `KvModel.UnsyncedCommitIsNotDurable` | Appli/Common/kvstore/kvstore_nv_littlefs.c:254-267 | a commit can return true and lose the value when syncing fails |
| `KvModel.LongValueStopsDevice` | Appli/Common/kvstore/kvstore_nv_littlefs.c:141 | a value of 256 octets is set and committed, and the device does not start again |
| `KvModel.StubStopsDevice` | Appli/Common/kvstore/kvstore_nv_littlefs.c:85-101 | exactly when a commit leaves a file shorter than its header; such a file keeps the device from starting, whatever the other keys hold |
| `KvModel.RunIsMap` | Appli/Common/kvstore/kvstore_cache.c:195-290 | between reboots every key reads as its last write, whatever commits did |
| `KvModel.PendingIff` | Appli/Common/kvstore/kvstore_cache.c:205-237 | between reboots a slot becomes pending by exactly the first write that changes what it holds; unchanged values leave the flag clear, and commits never clear it |
| `KvModel.LastWriteSurvivesIff` | Appli/Common/kvstore/kvstore_cache.c:137-309 | across a reboot a key reads as its last write, or else as what flash held even if that had failed to load, if and only if a pending write reached the flash |
| `KvModel.DroppedCounts` | Appli/Common/kvstore/kvstore_cache.c:119-132 | over any run the number of dropped blocks is that of the writes in the history that shrink a value from heap to pointer size, plus the keys written after a failed load left a heap-sized block |
| `KvModel.DroppedInHistory` | Appli/Common/kvstore/kvstore_cache.c:137-248 | the same over any history, from the blocks lost by the last start on |
| `KvModel.FailedLoadLosesBlock` | Appli/Common/kvstore/kvstore_cache.c:206-208 | the first write after a failed load loses a block without shrinking anything |
| `KvFront.DefaultCopyIff` | Appli/Common/kvstore/kvstore.c:55-75 | the configured value is copied out for every content of the union exactly when the default is a scalar or more than four octets are copied |
| `KvFront.ShortDefaultIsAddress` | Appli/Common/kvstore/kvstore.c:65-72 | a default string of four octets comes out as an address |
| `KvFront.ScalarRoundTripIff` | Appli/Common/kvstore/kvstore.c:158-204 | set then get returns every word exactly when the kind is not unsigned base |
| `KvFront.StringRoundTrip` | Appli/Common/kvstore/kvstore.c:315-338 | a string that was set comes back terminated, cut to the buffer, with its full length reported and nothing written behind the buffer; only an empty buffer is overrun, at its front |
| `KvFront.StringReadCopies` | Appli/Common/kvstore/kvstore.c:323-335 | the string getter's buffer starts with the octets that were copied, and ends with the terminator |
| `KvFront.BlobRoundTrip` | Appli/Common/kvstore/kvstore.c:254-268 | a blob that was set comes back, cut to the buffer, with its full length |
| `KvFront.UnsetReadsDefault` | Appli/Common/kvstore/kvstore.c:55-75 | a key without a value reads as the configured default |
| `KvFront.ScalarDefaultIff` | Appli/Common/kvstore/kvstore.c:373-463 | a scalar getter answers the default of an unset key exactly when the kind is not unsigned base, and zero and failure for a key of another type |
| `KvFront.ReportedSizeIff` | Appli/Common/kvstore/kvstore.c:206-225 | after any writes and commits since a start, the size query agrees with what a read reports exactly when the key was written, its load did not fail, or the default is as long as the file's value |
| `KvFront.Store.ReadEntryOrDefault` | Appli/Common/kvstore/kvstore.c:46-108 | reads the stored value or else the default, returning the untruncated length |
| `KvFront.Store.SetValue` | Appli/Common/kvstore/kvstore.c:134-144 | writes exactly when key, type and length are acceptable, otherwise changes nothing; keeps every stored type the declared one |
| `KvFront.Store.SetScalar` | Appli/Common/kvstore/kvstore.c:158-204 | the scalar setters are gated on their own type |
| `KvFront.Store.SetString` | Appli/Common/kvstore/kvstore.c:146-156 | stores the string with its terminator |
| `KvFront.Store.GetScalar` | Appli/Common/kvstore/kvstore.c:373-463 | answers the stored or default word and whether its length was right; a zero word for a key of another type |
| `KvFront.Store.GetString` | Appli/Common/kvstore/kvstore.c:315-338 | copies the prefix, forces the terminator, returns the length without it; the terminator goes astray exactly for an empty buffer |
| `KvFront.Store.GetBlob` | Appli/Common/kvstore/kvstore.c:254-268 | copies the prefix and returns the full length |
| `KvFront.Store.GetSize` | Appli/Common/kvstore/kvstore.c:206-252 | the cached length, or that of the default |
| `KvFront.StringToKey` | Appli/Common/kvstore/kvstore.c:477-491 | the first key with the name, or the number of keys |
| `KvNvPsa.ItsStore.GetLength` | Appli/Common/kvstore/kvstore_nv_psa_its.c:59-70 | the length of the stored value |
| `KvNvPsa.ItsStore.ReadValue` | Appli/Common/kvstore/kvstore_nv_psa_its.c:81-151 | type, copied length and prefix of the value; its assertion fails exactly when only the second access fails and the wanted length is not that of a header |
| `KvNvPsa.ItsStore.WriteValue` | Appli/Common/kvstore/kvstore_nv_psa_its.c:161-217 | one key of the abstract store is updated, or nothing is |
| `KvNvPsa.FileBackendRefines` | Appli/Common/kvstore/kvstore_nv_littlefs.c:196-268 | writes of the littlefs backend refine the same abstract store: update, removal or no change of one key |
| `KvNvPsa.FileBackendReads` | Appli/Common/kvstore/kvstore_nv_littlefs.c:85-186 | its faultless reads and length queries answer from that store, up to the assertion on 256 octets |
| `Asn1.GetLenOfLenOctets` | Middlewares/Third_Party/ARM_Security/library/asn1parse.c:45-101 | the reader inverts the writer's length octets |
| `Asn1.MinimalLengthIsLenOctets` | Middlewares/Third_Party/ARM_Security/library/asn1write.c:37-99 | the writer produces the only minimal length octets |
| `Asn1.GetTagOfTlv` | Middlewares/Third_Party/ARM_Security/library/asn1parse.c:103-116 | the reader finds the contents of a written element |
| `Asn1.GetTagIff` | Middlewares/Third_Party/ARM_Security/library/asn1parse.c:45-116 | a header is accepted exactly where tag and definite length octets of X.690 section 8.1.3 stand and the contents fit |
| `Asn1.GetTagErrors` | Middlewares/Third_Party/ARM_Security/library/asn1parse.c:45-116 | which error every other header is answered with |
| `Asn1.LenOctetsMean` | Middlewares/Third_Party/ARM_Security/library/asn1write.c:37-99 | the written length octets denote the length, in base 256, and no other ones are fewer |
| `Asn1.WriteLen` | Middlewares/Third_Party/ARM_Security/library/asn1write.c:37-99 | length octets end just before the pointer, or the call fails and changes nothing |
| `Asn1.CloseTlv` | Middlewares/Third_Party/ARM_Security/library/asn1write.c:37-109 | length and tag turn contents into an element exactly when they fit, without touching the rest |
| `EcdsaDer.IntContentsMinimal` | Appli/Common/crypto/psa_util.c:628-657 | the written integer is minimal (X.690 section 8.3.2) and has the component's value |
| `EcdsaDer.MinimalContentsUnique` | Appli/Common/crypto/psa_util.c:628-657 | no other contents octets of that magnitude are minimal |
| `EcdsaDer.DecodeOfEncode` | Appli/Common/crypto/pk_wrap_stsafe.c:541-593 | decoding an encoded signature returns r and s and stops exactly at its end |
| `EcdsaDer.ExtractIntIff` | Appli/Common/crypto/pk_wrap_stsafe.c:541-568 | for any octets: an integer is extracted exactly where a header and contents of the same nonzero big-endian value stand |
| `EcdsaDer.ExtractSigIff` | Appli/Common/crypto/pk_wrap_stsafe.c:575-593 | for any octets: r and s are extracted exactly where a SEQUENCE header and two such INTEGERs stand, in this order |
| `EcdsaDer.EncodedIsSignature` | Appli/Common/crypto/psa_util.c:684-690 | the canonical encoding is such a signature of its components |
| `EcdsaDer.EncodedExample` | Appli/Common/crypto/psa_util.c:628-690 | in octets: leading zeros go, a set top bit gets a zero octet |
| `EcdsaDer.EncodeOfDecode` | Appli/Common/crypto/pk_wrap_stsafe.c:541-593 | decoding then encoding returns the original octets exactly when they were strict DER |
| `EcdsaDer.StrictIntIff` | Appli/Common/crypto/pk_wrap_stsafe.c:541-568 | an accepted integer is strict DER exactly when it is the encoder's own |
| `EcdsaEncodePsa.WriteMpiBuf` | Appli/Common/crypto/psa_util.c:615-664 | the number at the front becomes a DER integer at the end, with the exact failure conditions; nothing below start or from the end pointer on is written |
| `EcdsaEncodePsa.WriteInteger` | Appli/Common/crypto/psa_util.c:657-663 | sign octet, length and tag around a magnitude, exactly when they fit |
| `EcdsaEncodePsa.WriteSigBackwards` | Appli/Common/crypto/psa_util.c:684-690 | both integers and the sequence, while r stays intact until it is moved |
| `EcdsaEncodePsa.SigAsn1FromPsa` | Appli/Common/crypto/psa_util.c:675-695 | succeeds exactly when both components are nonzero and the buffer holds twice a component, a component plus the encoded s, and the whole encoding; then the encoding is at the front. Writes in front of the buffer exactly when it holds less than one component |
| `EcdsaDecode.ExtractSigInt` | Appli/Common/crypto/pk_wrap_stsafe.c:541-568 | one integer, left-padded into its half of the output, and nothing else written |
| `EcdsaDecode.ExtractSignature` | Appli/Common/crypto/pk_wrap_stsafe.c:575-593 | both halves and the position reached, or the first error |
| `EcdsaDecode.EcdsaVerify` | Appli/Common/crypto/pk_wrap_stsafe.c:595-676 | for every signature: 0 exactly when the key is ready and the whole of it is a SEQUENCE header and two INTEGERs whose fixed-width form verifies; otherwise the code of the first thing that is wrong: key, field size, extraction, verification, trailing octets |
| `EcdsaDecode.TruncatedIsRefused` | Appli/Common/crypto/pk_wrap_stsafe.c:650-655 | the shortest truncated signature is answered with the extraction error |
| `EcdsaDecode.VerdictOnEncoded` | Appli/Common/crypto/pk_wrap_stsafe.c:650-670 | an encoded signature is accepted exactly when the key is ready, its raw form verifies and nothing follows |
| `EcdsaEncodePkcs11.WriteBigInt` | Appli/Common/crypto/mbedtls_pk_pkcs11.c:1347-1393 | the unstripped integer of any length, zero included, exactly when it fits |
| `EcdsaEncodePkcs11.SigToAsn1InPlace` | Appli/Common/crypto/mbedtls_pk_pkcs11.c:1401-1458 | for every signature length the assertions accept: succeeds exactly when the encoding fits both buffers, and leaves the signature alone otherwise |
| `EcdsaEncodePkcs11.RawSigAtIsDer` | Appli/Common/crypto/mbedtls_pk_pkcs11.c:1416-1439 | for nonempty components what it writes is the encoding of r and s |
| `EcdsaEncodePkcs11.DecodeOfRawEncode` | Appli/Common/crypto/mbedtls_pk_pkcs11.c:1347-1458 | this encoding decodes to r and s as well |
| `EcdsaEncodePkcs11.RawEncodedExample` | Appli/Common/crypto/mbedtls_pk_pkcs11.c:1347-1458 | in octets: leading zeros stay |
| `EcdsaEncodePkcs11.EncodersAgree` | Appli/Common/crypto/mbedtls_pk_pkcs11.c:1347-1458 | the two encodings are equal exactly when neither component starts with nine zero bits |
| `EcdsaEncodePkcs11.VerdictOnRawEncoded` | Appli/Common/crypto/pk_wrap_stsafe.c:650-670 | the verifier's verdict on such a signature |
| `Base64.EncCharIsAlphabet` | Middlewares/Third_Party/ARM_Security/library/base64.c:81-102 | every digit is written as its character in table 1 of RFC 4648 |
| `Base64.DecValueIff` | Middlewares/Third_Party/ARM_Security/library/base64.c:154-165 | a character has a digit value exactly when it is in that table, and then its place there |
| `Base64.EncodeBits` | Middlewares/Third_Party/ARM_Security/library/base64.c:73-105 | every character of an encoding is the table's entry for six bits of the source, or padding where the source has no bits |
| `Base64.DecodeOfEncode` | Middlewares/Third_Party/ARM_Security/library/base64.c:44-212 | decoding inverts encoding exactly when the room suffices |
| `Base64.ForeignIsRefused` | Middlewares/Third_Party/ARM_Security/library/base64.c:126-167 | a character outside the table makes the decoder refuse the input, wherever it stands |
| `Base64.ScanCounts` | Middlewares/Third_Party/ARM_Security/library/base64.c:125-167 | the first pass counts exactly the characters the second one takes, and finds padding only at their end |
| `Base64.DecodedFits` | Middlewares/Third_Party/ARM_Security/library/base64.c:169-211 | on every input the decoder stays within its room, and its output length follows from the counts of digits and padding |
| `Pem.PrintDer` | Appli/Common/cli/cli_pki.c:121-169 | header, 64-character body lines and footer, each ended by CRLF; the error branch is never taken |
| `Pem.BodyLines` | Appli/Common/cli/cli_pki.c:136-160 | the printed lines have 64 characters but the last, and encode the object 48 octets at a time |
| `Pem.ReadPemAsDer` | Appli/Common/cli/cli_pki.c:669-811 | the flag-and-length loop refines the line state machine |
| `Pem.OnEncodedLine` | Appli/Common/cli/cli_pki.c:698-783 | the outcome for any base64 line, whoever wrote it: appended, refused for its length, or the device stops |
| `Pem.OnForeignLine` | Appli/Common/cli/cli_pki.c:765-782 | a line with a character outside the alphabet is refused |
| `Pem.OnMarkerLine` | Appli/Common/cli/cli_pki.c:716-759 | nothing but a BEGIN line comes first, and empty lines and markers without their dashes are refused |
| `Pem.StuckIff` | Appli/Common/cli/cli_pki.c:698-783 | the length assertion fails exactly on the lines after the header whose digits and padding come to all the room left, and each of those had been refused |
| `Pem.PrintedReadsBack` | Appli/Common/cli/cli_pki.c:692-797 | reading back a printed object returns it exactly when length plus footer plus one is below 2048, trips the assertion exactly at 2048 octets, and is rejected otherwise |
| `Pem.ConsoleRoundTrip` | Appli/Common/cli/cli_pki.c:121-169 | the same through the line editor, from the printer's own octets |
| `LineEditor.Console.Key` | Appli/Common/cli/cli_uart_drv.c:424-508 | one octet is one step of the editing fold, with its echo |
| `LineEditor.Console.ReadLineCall` | Appli/Common/cli/cli_uart_drv.c:403-512 | one call is the whole fold: line, terminator, echo, flag, and what is left unread |
| `LineEditor.LinesAreClean` | Appli/Common/cli/cli_uart_drv.c:421-509 | a returned line has 1 to 127 octets, none of them an editing character |
| `LineEditor.EraseUndoes` | Appli/Common/cli/cli_uart_drv.c:465-487 | backspace and delete take the last character away again |
| `LineEditor.NothingToEdit` | Appli/Common/cli/cli_uart_drv.c:452-460 | on an empty line backspace, delete and line ends change nothing |
| `LineEditor.CtrlCStartsOver` | Appli/Common/cli/cli_uart_drv.c:490-493 | ctrl-C drops what was typed |
| `LineEditor.LineEndReturns` | Appli/Common/cli/cli_uart_drv.c:428-450 | a line feed, a carriage return or a NUL returns exactly what was typed |
| `LineEditor.FullLineIsDiscarded` | Appli/Common/cli/cli_uart_drv.c:421-422 | the 128th character makes the call return nothing |
| `LineEditor.LinesOfText` | Appli/Common/cli/cli_uart_drv.c:403-512 | text sent as CRLF lines comes back as exactly those lines |
| `CliCommand.WordsAreMaximalRuns` | Appli/Common/cli/cli_main.c:166-182 | the tokens are exactly the maximal runs of non-spaces, in order |
| `CliCommand.WordEndsCountWords` | Appli/Common/cli/cli_main.c:309-333 | counting word ends counts words |
| `CliCommand.GetNumberOfArgs` | Appli/Common/cli/cli_main.c:309-333 | the counted arguments are as many as the tokens |
| `CliCommand.Tokenize` | Appli/Common/cli/cli_main.c:171-182 | one in-place cut of the next word |
| `CliCommand.FindMatchingCommand` | Appli/Common/cli/cli_main.c:127-149 | the first command that is the line's first word |
| `CliCommand.FirstWordIsCommand` | Appli/Common/cli/cli_main.c:137-141 | a line matches exactly when its first token starts the line and is the command name |
| `CliCommand.NameMatches` | Appli/Common/cli/cli_main.c:137-141 | the name alone and the name followed by a space match |
| `CliCommand.TokenizeAll` | Appli/Common/cli/cli_main.c:164-182 | argv holds every word, terminated in place, and neither assertion fails |
| `CliCommand.ProcessCommand` | Appli/Common/cli/cli_main.c:154-192 | dispatch finds the first command that matches and passes every word of the line, terminated in place, with argv[0] the command name |
| `CliCommand.GetParameter` | Appli/Common/cli/cli_main.c:196-255 | parameter k is argv[k], or argv[k-1] on a line that starts with a space |
| `UartReceive.MasksRecover` | Appli/Common/cli/cli_uart_drv.c:132-136 | length and buffer are recovered from the notification word |
| `UartReceive.StepIsSafe` | Appli/Common/cli/cli_uart_drv.c:139-240 | each step keeps safety and accounts for every octet |
| `UartReceive.RunIsSafe` | Appli/Common/cli/cli_uart_drv.c:139-240 | in every run a pending notification never names the armed buffer, and received octets are offered, in flight or overwritten |
| `UartReceive.EventsAreReceived` | Appli/Common/cli/cli_uart_drv.c:152-200 | the data events are exactly the octets the hardware received, in order, up to what is still arriving |
| `UartReceive.OfferedIsReceived` | Appli/Common/cli/cli_uart_drv.c:152-240 | when buffers are copied before reuse, the stream is offered exactly what was received if and only if the schedule takes every data notification before the next nonempty event or error |
| `UartReceive.NothingLostIff` | Appli/Common/cli/cli_uart_drv.c:152-240 | exactly those schedules lose no octet |
| `ConsoleRedraw.KeyShown` | Appli/Common/cli/cli_uart_drv.c:424-508 | the echo of one octet brings the terminal line to the new buffer, and to a fresh line when the line is returned |
| `ConsoleRedraw.CtrlCIsKey` | Appli/Common/cli/cli_uart_drv.c:489-493 | the two unguarded halves of ctrl-C are together the editor's step |
| `ConsoleRedraw.RedrawShown` | Appli/Common/cli/cli_uart_drv.c:281-304 | a redraw leaves prompt and buffer alone on the last line, or a fresh line when nobody types, whatever lines the message spans |
| `ConsoleRedraw.LogTransmits` | Appli/Common/cli/cli_uart_drv.c:281-304 | a log line that fits goes out with its line end, behind nothing or the erasing sequence alone |
| `ConsoleRedraw.RunTransmits` | Appli/Common/cli/cli_uart_drv.c:269-316 | over every run in which no redraw is cut off, all log lines and command output are transmitted whole and in order |
| `ConsoleRedraw.RunShowsSent` | Appli/Common/cli/cli_uart_drv.c:319-331 | the terminal is given exactly the octets that were sent |
| `ConsoleRedraw.InitialIsConsistent` | Appli/Common/cli/cli_uart_drv.c:403-419 | the console is consistent before readline is first called |
| `ConsoleRedraw.StepIsConsistent` | Appli/Common/cli/cli_uart_drv.c:269-316 | each step keeps the screen consistent, redraws between the halves of ctrl-C and into a refilled stream included, unless a redraw is cut off |
| `ConsoleRedraw.RunIsConsistent` | Appli/Common/cli/cli_uart_drv.c:269-509 | whenever readline waits, the drained screen shows prompt and buffer on its last line, for every interleaving in which no redraw is cut off |
| `ConsoleRedraw.LogIsConsistentIff` | Appli/Common/cli/cli_uart_drv.c:281-304 | a one-line message keeps the screen consistent exactly when its redraw fits, or nothing of it is sent, or the part that is sent reads like prompt and buffer |
| `ConsoleRedraw.KeptOctetShownIff` | Appli/Common/cli/cli_uart_drv.c:496-506 | an octet that is kept is shown as kept exactly when it is printable |
| `ConsoleRedraw.LogClearsLine` | Appli/Common/cli/cli_uart_drv.c:281-304 | after a log line nothing precedes the prompt |
| `ConsoleRedraw.RedrawFits` | Appli/Common/cli/cli_uart_drv.c:275-304 | a redraw into an empty stream fits, and the transmit task's assertion holds |
| `Spki.WriteOid` | Middlewares/Third_Party/ARM_Security/library/asn1write.c:177-189 | an object identifier element in front of what was written, and its size, or an error exactly when it does not fit |
| `Spki.WriteAlgorithmIdentifier` | Middlewares/Third_Party/ARM_Security/library/asn1write.c:191-210 | the identifier around its parameters, or around NULL when there are none; the count includes them; an error exactly when it does not fit |
| `Spki.WriteKey` | Appli/Common/crypto/PkiObjectPsa.c:157-204 | the bit string at the end of the buffer, with the counter equal to the distance to the end |
| `Spki.ReadPublicKey` | Appli/Common/crypto/PkiObjectPsa.c:67-368 | of all curves in the table the builder succeeds exactly for P-256 and secp192r1, and then returns the SubjectPublicKeyInfo of the point |
| `Spki.CountsTranslated` | Appli/Common/crypto/psa_util.c:333-360 | which positive counts the error translation mistakes for errors |
| `Spki.P384CountIsError` | Appli/Common/crypto/psa_util.c:333-360 | the identifier of a P-384 key has 18 octets, a count that is taken for an error |
| `Spki.ExportPubKeyDer` | Appli/Common/crypto/PkiObjectPkcs11.c:74-159 | the constant header replaces the two octets in front of the stored point |
| `Spki.BuildersAgree` | Appli/Common/crypto/PkiObjectPkcs11.c:87-139 | for every P-256 point both builders give the same 91 octets, and the point is the suffix that key generation slices |

## Left out

- littlefs, PSA storage, PKCS#11, mbed TLS public-key contexts and FreeRTOS are represented by what they answer: outcomes of file operations and of the verifier's key import are parameters, the PKCS#11 store returns what was stored, and the key export of the public-key builder succeeds.
- KvModel.CommitIsDurable: speaks of slots whose file at the last start, and after a failed sync, is absent, no longer than a header, or whole, as littlefs's atomic updates leave them, and over runs that a write which takes too little reports an error or its file can be removed. Files of other contents are followed through start-up, but what a commit makes of their slots is not stated.
- KvModel.RunKeepsTypes: a file that a misbehaving file system leaves behind has the type of its key.
- KvCache.Cache.CacheInit: sizes of files are 32-bit numbers, and the type takes one octet of the header, as the ABI packs enumerations.
- Failed memory allocation other than for a stub, which stops the device, and a second initialisation of the store.
- File names of the store; keys are indices. That each operation of the store is atomic is an assumption: getters and start-up take the mutex, setters and commits do not.
- Heap-returning getters, which wrap the modelled ones, and builds without the cache or with test overrides.
- KvCache.Cache.WriteEntry: requires a real type and a nonempty value, as every caller in the front end passes, and a size that fits into size_t together with the header.
- EcdsaEncodePsa.SigAsn1FromPsa: components are below 2^28 octets, so that no length overflows a C int. For a buffer of less than one component only the stray write is stated, not what it destroys.
- EcdsaEncodePkcs11.SigToAsn1InPlace: the size of the temporary buffer, which depends on the enabled curves, is a parameter.
- Pem.ReadPemAsDer: the lines are those typed so far; a call that still waits for more is the result `Reading`.
- The second PEM reader, certificate and request generation, RSA public keys, and the dispatch of object labels.
- Spki.ReadPublicKey: which curves are enabled depends on the configuration; the buffer is that of the largest one.
- UartReceive: the two buffers and the notification are a state machine over interrupt and task steps instead of a class; the limited room of the receive stream behind the offered octets is not modelled.
- ConsoleRedraw.RunIsConsistent: a state machine over atomic steps: each key under the semaphore, each redraw, and the prompt with its flag. Terminals do not wrap lines; log lines hold no escape sequences, command output moves the cursor only forward, and kept keys are printable ASCII. For messages of several lines, that a cut redraw spoils the screen is not shown.
- The command list is a sequence; registration of commands and the help command.
- Numeric conversions of the scalar getters: words are their four octets.
