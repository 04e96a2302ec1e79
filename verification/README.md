# openssl-wasm: a verified model

This project models the parts of the OpenSSL component whose correctness is not visible from reading one
function, and proves what they promise.

- **The vector block cipher** (`Gf256`, `GfPolynomials`, `AesTables`, `Fips197`, `AesSimd`, `AesExample`). `Gf256` builds byte
  arithmetic from the masked `xtime`; `GfPolynomials` shows that it is polynomial arithmetic modulo
  x^8+x^4+x^3+x+1; `AesTables` holds both substitution tables and shows that they are field inversion followed by the
  affine map. `Fips197` is the textbook cipher on a four by four state, over an arbitrary substitution, with the
  theorems on Cipher, InvCipher and the Equivalent Inverse Cipher. `AesSimd` is the code: lane shuffles, the corrected
  InvMixColumns, the byte-swapped key schedule in memory, and the two loops, proved to compute the textbook functions
  and to undo each other. `AesExample` follows an example of the standard through them.
- **Certificates and stores** (`X509Store`). Reference counting across handles, untrusted stashes, trusted sets and
  returned chains, as an object whose calls are the component's calls.
- **TLS** (`TlsLifecycle`, `Keylog`, `Alpn`, `MemBio`). Acquisition and release on every path of every constructor,
  close and destructor; the growable key-log buffer; the protocol-list encoder and the scan that recovers its length;
  the byte channel between two memory-BIO endpoints.
- **Shared** (`Wrappers`, `Memory`). Results that can fail, bytes and C strings.
- **The provider** (`OsslParams`, `BioDrain`). Marshalling of parameters in both directions, first-fit answering of
  requests, and the doubling drain loop.
- **Encoders and parsers** (`HkdfLabel`, `Framing`, `Hex`, `IsoTime`). The HkdfLabel structure, the request framing
  and hexadecimal text of the signing service, and ISO time stamps.

Code that changes state is modelled by classes, arrays and loops; each such method is proved against a function or a
relation on values, and the lemmas are about those. Proofs use `hide` to keep definitions out of obligations that do
not need them.

## Assumed of the libraries

libcrypto, libssl and the C library are represented by small contracts, written into the model where they are used.

- Up-ref adds one reference and free subtracts one; `X509_STORE_add_cert` adds one unless a certificate of equal
  content is present; `X509_STORE_CTX_get1_chain` adds one for each element, and a chain is made of certificates that
  chain building was given. Freeing a stack with its elements subtracts one for each.
- An `SSL_CTX` frees the store it was given; `SSL_free` frees the BIOs attached to the session.
- A memory BIO is a queue; it refuses lengths above the C int range. A TLS engine may consume any prefix of its input
  and emit anything.
- `OSSL_PARAM_set_utf8_string` and `OSSL_PARAM_set_octet_string` set the return size to the length, succeed without
  memory, and otherwise require the type and enough room; a string gets a zero byte if there is room for one.
- `BIO_read_ex` writes at most the bytes asked for, over a finite stream.
- `sscanf` converts `%d` as white space, an optional sign and digits; `timegm` counts seconds in the proleptic
  Gregorian calendar; `ASN1_TIME_to_tm` yields a calendar date of the years 0 to 9999, and `ASN1_TIME_set` the one of
  a number of seconds.
- The binding runtime allocates one byte more than a key has. The comments in src/provider_wit.c:210-218 and 232-238
  disagree about this; the code writes that byte for every key, so `OsslParams.Emit` requires it.
- Handles passed by value (wit/tls.wit:81, 108) are no longer in the hands of the caller. Whether the layer between
  caller and component drops them is not decided by the source; both outcomes are modelled for the trust store.
- A session holds a reference to its context, and a context keeps the argument of its selection callback as a pointer.

Outcomes that depend on the allocator, the network or the peer are parameters of the operations, so the theorems hold
for all of them.

## Findings

Properties that the code does not have in full, each with its exact condition in a lemma of the table.

- `store_add_untrusted` ignores the results of the calls that remember the stash and push onto it; a failure of either
  loses the reference just taken (`X509Store.World.AddUntrusted`), and the certificate outlives every handle and
  store (`X509Store.LostCertificate`).
- A protocol list with an empty name is cut at that name by the length scan of the server (`Alpn.ScanLength`,
  `Alpn.EmptyNameCuts`).
- The list of a listener is freed when it is closed, while sessions it accepted keep a context whose selection callback
  points to it; what it points to is gone exactly when the listener was closed before the session (`TlsLifecycle.Dangling`,
  `TlsLifecycle.ListenerFirst`).
- A request for a 4- or 8-byte number that brings no memory, which is how the size of a parameter is asked for, is
  answered by a store through the null pointer, if a number entry of its key comes before any entry that accepts it
  (`OsslParams.AnswerOne`, `OsslParams.NumberWithoutMemory`).
- An exported key with a zero byte is cut there (`OsslParams.ExportImport`, `OsslParams.KeyCut`); a text of more than
  255 bytes, or with a zero byte, is cut when a request is answered, and an integer is wrapped when it does not fit
  (`OsslParams.ValuePreserved`, `OsslParams.TextsCut`, `OsslParams.IntegersWrap`).
- The fallback copy in `fill_one_ossl_param` is unreachable (`OsslParams.FallbackNeverApplies`).
- An empty label passes the checks of the HkdfLabel builder although the standard asks for at least one byte
  (`HkdfLabel.EmptyLabelAccepted`, `HkdfLabel.EmptyLabelExample`).
- `unhex` also reads upper-case digits and a plus sign followed by a digit, and slicing aborts on some texts that are
  not ASCII (`Hex.HexUnhex`, `Hex.TextsThatChange`, `Hex.UnhexAborts`, `Hex.TextThatAborts`).
- `parse_iso` refuses 1969-12-31T23:59:59Z (`IsoTime.ParsePrinted`), and carries days and months over instead of
  refusing them, exactly when the six fields are not a calendar time (`IsoTime.FieldsKept`, `IsoTime.DaysCarryOver`).
- The TLS constructors are given the handle of a trust store by value and do not drop it; unless the calling layer does,
  the store, its trusted set and its stash are never released (`X509Store.AttachedStore`,
  `X509Store.StrandedCertificate`).

## Model

| member | source | states |
|---|---|---|
| `AesSimd.RoundTrip` | src/aes_simd.c:244-293 | for every pair of keys in the stated relation, every block and every round count from 1 up, encrypting a buffer in place and then decrypting it in place leaves it unchanged |
| `AesSimd.EncryptBlock` | src/aes_simd.c:244-266 | the loop over the swapped schedule writes Cipher (section 5.1 of FIPS 197) of the old input, reading each of the rounds+1 round keys once at offset 16i; input and output may be one buffer |
| `AesSimd.DecryptBlock` | src/aes_simd.c:268-293 | the decryption loop writes EqInvCipher (section 5.3.5 of FIPS 197) of the old input on the schedule given |
| `AesSimd.DecryptIsInvCipher` | src/aes_simd.c:24-27 | on the transformed schedule decryption is the straight InvCipher on the encryption schedule, and is a left and a right inverse of encryption |
| `AesSimd.CipherIsStandard` | src/aes_simd.c:59-94 | the table cipher is the cipher whose substitution is defined by inversion in GF(2^8) and the affine map |
| `Fips197.InvCipherCipher` | src/aes_simd.c:244-293 | for any substitution with a left inverse, any schedule and any block, InvCipher undoes Cipher |
| `Fips197.CipherInvCipher` | src/aes_simd.c:244-293 | for any substitution with a right inverse, Cipher undoes InvCipher |
| `Fips197.RoundsPair` | src/aes_simd.c:254-290 | round i of decryption stands at the state that encryption had before its last n-i rounds, shifted and substituted |
| `Fips197.RoundsPairBack` | src/aes_simd.c:254-290 | the same pairing for encryption started on a deciphered block |
| `Fips197.EqInvCipherSame` | src/aes_simd.c:24-27 | the Equivalent Inverse Cipher on the reversed schedule with InvMixColumns applied to the middle keys computes InvCipher |
| `Fips197.EqInvCipherRoundsSame` | src/aes_simd.c:281-287 | the two decryption loops agree after every round, not only at the end |
| `AesSimd.InvMixColumnsIsStandard` | src/aes_simd.c:200-231 | MixColumns plus 8 times the column sum plus 4 times the alternate sum is the {0e,0b,0d,09} matrix product on every state |
| `AesSimd.InvMixByte` | src/aes_simd.c:205-211 | the identity behind the correction, byte by byte |
| `AesSimd.MixColumnsIsStandard` | src/aes_simd.c:185-198 | xtime and column rotations give the {02,03,01,01} circulant product on every state |
| `AesSimd.MixByte` | src/aes_simd.c:193-197 | one output byte of the rotate-and-add form as four field products |
| `Fips197.MixColumnsInverse` | src/aes_simd.c:185-231 | the two column maps are two-sided inverses of each other |
| `Fips197.TimesMatrixXor` | src/aes_simd.c:24-27 | a column map is linear over XOR in the whole state, which is what lets InvMixColumns move into the key schedule |
| `Fips197.SubBytesShiftRows` | src/aes_simd.c:281-285 | byte substitution commutes with the row permutations |
| `AesSimd.SubBytes` | src/aes_simd.c:131-136 | the overwriting loop replaces each byte by its S-box image exactly once |
| `AesSimd.InvSubBytes` | src/aes_simd.c:138-143 | the overwriting loop replaces each byte by its inverse S-box image exactly once |
| `AesSimd.ShiftRowsIsStandard` | src/aes_simd.c:145-161 | the two lane shuffles rotate row r left and right by r |
| `Fips197.ShiftRowsInverse` | src/aes_simd.c:145-161 | the row permutations undo each other in both orders |
| `AesSimd.LoadRoundKeyIsStandard` | src/aes_simd.c:233-242 | swapping the bytes of each little-endian word at offset 16i recovers the column bytes of round key i |
| `AesSimd.RoundKeyColumns` | src/aes_simd.c:33-36 | the four bytes of a column of a round key, read from the most significant end, are the word of the schedule |
| `AesSimd.WordIsItsBytes` | src/aes_simd.c:33-36 | a word is put together again from its bytes in memory, lowest first, and from its bytes as the standard counts them, highest first |
| `AesSimd.PackedSchedule` | src/aes_simd.c:33-37 | every sequence of round keys is the schedule of some key, so nothing above is about fewer |
| `AesSimd.DecryptKeyExists` | src/aes_simd.c:24-27 | every encryption key has a decryption key in the stated relation |
| `Fips197.DecryptScheduleUnique` | src/aes_simd.c:24-27 | the relation has exactly one solution: the keys reversed, with InvMixColumns applied between the outer two |
| `AesExample.TwoRounds` | src/aes_simd.c:244-266 | on the key words and the input of appendix B of FIPS 197 the state after the first round is the published one, and a two-round cipher gives the stated block |
| `AesExample.EncryptExample` | src/aes_simd.c:244-266 | the encryption loop writes that block, from the words in memory to the last byte |
| `AesSimd.XorVIsStandard` | src/aes_simd.c:251-263 | the vector XOR with a round key is AddRoundKey |
| `GfPolynomials.XTimeIsRemainder` | src/aes_simd.c:163-169 | the masked shift is the remainder of x times the byte modulo x^8+x^4+x^3+x+1 |
| `GfPolynomials.MulIsRemainder` | src/aes_simd.c:185-231 | the byte product that the column maps are stated with is the polynomial product modulo x^8+x^4+x^3+x+1, with the quotient as witness |
| `GfPolynomials.StandardProducts` | src/aes_simd.c:163-169 | the sums and products worked out in sections 4.1 and 4.2 of FIPS 197 |
| `GfPolynomials.DivisionUnique` | src/aes_simd.c:163-169 | quotient and remainder by the modulus are unique, so the two lines above determine their results |
| `Gf256.XTimeXor` | src/aes_simd.c:163-169 | xtime is additive over XOR |
| `Gf256.MulXTime` | src/aes_simd.c:225-227 | xtime moves through a product, so its iterates are products by 2, 4 and 8 |
| `Gf256.MulEight` | src/aes_simd.c:225-227 | three iterates of xtime multiply by {08} |
| `Gf256.MulAssoc` | src/aes_simd.c:212-231 | the byte product is associative |
| `Gf256.MulComm` | src/aes_simd.c:212-231 | the byte product is commutative |
| `AesTables.InvSboxSbox` | src/aes_simd.c:59-129 | the decryption table undoes the encryption table on every byte |
| `AesTables.SboxInvSbox` | src/aes_simd.c:59-129 | the encryption table undoes the decryption table on every byte |
| `AesTables.SboxIsAffineOfInverse` | src/aes_simd.c:59-94 | every entry is the affine image of the field inverse of its index and of no other element |
| `AesTables.SboxIsSubByte` | src/aes_simd.c:59-94 | the table is SubByte of section 5.1.1 of FIPS 197 |
| `X509Store.World.Run` | src/x509.c:173-812 | every run of certificate and store calls reaches the handles, stores, contents and lost references of the calls performed, in order; each counter is the number of live handles, stash and trusted-set entries plus the references lost; the losses are exactly the untrusted additions whose stash was not remembered or whose push failed, none when those calls succeed |
| `X509Store.LostCertificate` | src/x509.c:678-687 | a run in which a push fails leaves its certificate alive with no handle and no store |
| `X509Store.LossesCounted` | src/x509.c:678-687 | the references lost over a run are as many as the calls that lose one |
| `X509Store.NoLosses` | src/x509.c:665-687 | a run whose stack and ex-data calls succeed loses nothing |
| `X509Store.World.Apply` | src/x509.c:173-812 | every single call makes the change to handles, stores, contents and lost references that belongs to it, and keeps counters equal to owners |
| `X509Store.World.ExistsWhileOwned` | src/x509.c:411-422 | with no failed stack calls an object exists exactly while it has an owner, and its counter is the number of owners |
| `X509Store.World.NothingLeft` | src/x509.c:723-730 | once every handle and store is gone the remaining objects are exactly those whose reference was lost |
| `X509Store.World.Parse` | src/x509.c:173-186 | a parsed certificate is a new object with one handle |
| `X509Store.World.Clone` | src/x509.c:411-417 | a clone adds one handle and one reference |
| `X509Store.World.Drop` | src/x509.c:419-422 | dropping a handle releases one reference and destroys the object exactly when it was the last |
| `X509Store.World.NewStore` | src/x509.c:640-645 | a new store owns nothing |
| `X509Store.World.AddTrusted` | src/x509.c:647-656 | the trusted set grows exactly when the call succeeds and no certificate of equal content is present |
| `X509Store.World.AddUntrusted` | src/x509.c:665-687 | the call fails exactly when no stack can be made; the reference it takes reaches the stash exactly when the stash is remembered and the push succeeds |
| `X509Store.World.VerifyChain` | src/x509.c:734-813 | counters change by one for each occurrence of a certificate in the returned chain and by nothing on any failure; each error is reported for exactly the verification results that the switch maps to it; the temporary stack takes no references |
| `X509Store.ErrorOf` | src/x509.c:787-798 | which fault each error stands for, in both directions |
| `X509Store.AllowedCalls` | src/x509.c:173-813 | a call is ruled out only if it names a handle or store its caller does not have, or a chain that could not have been built |
| `X509Store.World.DropStore` | src/x509.c:723-730 | the stash is released with the handle, the trusted set with the last reference to the store |
| `X509Store.World.AttachContext` | src/tls.c:292-297 | a TLS context takes a reference to the store whose handle it is given; if the calling layer drops that handle the stash is released, and if not the store keeps stash and trusted set behind a handle no one can use |
| `X509Store.AttachedStore` | src/tls.c:292-297 | over any calls that follow, the trusted set goes with the last context if the handle was dropped and is never released if it was not; a stash left behind is never released |
| `X509Store.StrandedCertificate` | src/tls.c:292-297 | a run that ends with a certificate alive in a store that has no context and no usable handle |
| `X509Store.World.ReleaseContext` | src/tls.c:532 | releasing the last context of a dropped store releases its trusted set |
| `TlsLifecycle.Run` | src/tls.c:270-1450 | over every run of constructors, failing or not, logging, draining, closing and dropping, the resources have exactly the fields that the calls performed leave them, each live object is owned by exactly one field of one of them, and with all closed nothing is live; the list a selection callback points to is gone exactly when the listener that accepted its session is closed; the buffer a session logs into is live whenever it may log |
| `TlsLifecycle.Ledger.Connect` | src/tls.c:270-379 | it succeeds exactly when every step does, and each error is reported exactly for the step that failed first; every failing path leaves the live objects as they were; success adds exactly those of the new rep, with the fields of a client |
| `TlsLifecycle.Ledger.Bind` | src/tls.c:583-662 | the same for a listener, which keeps the zero-terminated protocol list exactly when the offer encodes |
| `TlsLifecycle.Ledger.Accept` | src/tls.c:664-715 | the same for an accepted connection, which logs keys exactly when its listener does |
| `TlsLifecycle.Ledger.NewMemBio` | src/tls.c:857-941 | the same for both memory-BIO constructors, including the failure of one or both of the BIOs |
| `TlsLifecycle.Ledger.OpenSocket` | src/tls.c:114-159 | a socket is returned exactly when some address works, and every other socket is closed |
| `TlsLifecycle.Ledger.Close` | src/tls.c:526-546 | close followed by the destructor releases each object of the rep exactly once |
| `TlsLifecycle.Ledger.Destroy` | src/tls.c:1109-1127 | the destructor alone releases each object of the rep exactly once |
| `TlsLifecycle.Ledger.DrainKeylog` | src/tls.c:99-110 | draining releases the line storage and clears the field that owned it |
| `TlsLifecycle.Use` | src/tls.c:526-546 | a call on an open resource changes that resource as the call does and no other, keeps the one-owner balance, and leaves a closed or dropped resource empty |
| `TlsLifecycle.OpenedByWorking` | src/tls.c:270-1261 | every open resource comes from a call to a constructor whose steps all worked |
| `TlsLifecycle.CreatedWhenWorks` | src/tls.c:270-1261 | a constructor adds a resource exactly when every step of it works |
| `TlsLifecycle.EnabledCalls` | src/tls.c:526-1450 | a call is ruled out only if it names no open resource of the right kind |
| `TlsLifecycle.Create` | src/tls.c:270-1261 | a constructor adds one resource with the fields of its kind exactly when none of its steps fails, and nothing otherwise |
| `TlsLifecycle.Dangling` | src/tls.c:729-738 | the list behind the selection callback of an open session is live unless the session was accepted by a listener that is closed |
| `TlsLifecycle.Logging` | src/tls.c:368-375 | the ex-data of an open session that logs refers to the buffer inside its own rep, which is live |
| `TlsLifecycle.Ledger.PointLog` | src/tls.c:368-375 | after the move ex-data refers to the rep and no longer to the buffer of the handshake |
| `TlsLifecycle.ListenerFirst` | src/tls.c:729-738 | a listener closed before the connection it accepted leaves that open session with a pointer to a list that is gone |
| `Keylog.Run` | src/tls.c:67-110 | over any run of appends, drains and moves, drained lines followed by buffered lines are the lines kept, in order, each once; with no failed allocation these are all lines appended |
| `Keylog.KeptAll` | src/tls.c:77-91 | lines are dropped only by a failed allocation |
| `Keylog.KeylogBuf.Append` | src/tls.c:77-91 | the line is added in place after doubling from 16 when full, or dropped when growth fails, with the entries moved counted |
| `Keylog.KeylogBuf.Drain` | src/tls.c:98-110 | all lines are handed out in order and the storage is released |
| `Keylog.KeylogBuf.MoveFrom` | src/tls.c:368-375 | the struct copied into the rep holds the same lines, length and capacity |
| `Keylog.KeylogBuf.AmortizedGrowth` | src/tls.c:79-85 | after n lines since the last drain fewer than 2n entries were moved, and capacity is at most 16 or below 2n |
| `Keylog.Step` | src/tls.c:67-110 | one call keeps every line: lines out followed by lines held are lines held before followed by the line added |
| `Alpn.AlpnWire` | src/tls.c:197-217 | an offer is encoded exactly when every name has at most 255 bytes, and the second loop fills exactly the length the first computed |
| `Alpn.DecodeEncode` | src/tls.c:197-217 | decoding the wire image returns the list (section 3.1 of RFC 7301) |
| `Alpn.EncodeDecode` | src/tls.c:197-217 | nothing but an encoding decodes, so a list has one wire image |
| `Alpn.ScanLength` | src/tls.c:571-574 | the scan stays in bounds, terminates at the encoded length of the names before the first empty one, and at the whole length exactly when no name is empty |
| `Alpn.SelectionList` | src/tls.c:644-656 | from the configured offer through the terminated copy and the scan, the list selected from decodes to the names before the first empty one |
| `Alpn.WireExample` | src/tls.c:211-213 | two names on the wire, a length byte before each |
| `Alpn.EmptyNameCuts` | src/tls.c:571-574 | an offer with an empty second name is encoded whole, and only its first name is selected from |
| `Alpn.BeforeEmptyIsPrefix` | src/tls.c:571-574 | the names a server offers are a prefix of its list, cut at the first empty name, and all of it exactly when none is empty |
| `MemBio.Link.Run` | examples/host/tests/tls_mem_bio_loopback.rs:58-102 | every interleaving of engine steps and pumping of any sizes reaches the state of the calls performed: each side has emitted what its engine wrote, in order; the other has consumed as much of it as its engine read; in between come in-BIO, bytes in hand and out-BIO; a handshake flag is set exactly when one of the side's handshakes has succeeded |
| `MemBio.RunTracks` | examples/host/tests/tls_mem_bio_loopback.rs:58-102 | the state after any sequence of calls loses, duplicates and reorders nothing and agrees with what the engines wrote and read |
| `MemBio.NextConserves` | src/tls.c:943-1001 | each call keeps emitted = consumed, then in-BIO, then bytes in hand, then out-BIO, in both directions |
| `MemBio.Link.Step` | src/tls.c:943-1001 | one call changes the queues, the bytes in hand, the histories and the flags of both endpoints as its kind says and nothing else |
| `MemBio.Drained` | examples/host/tests/tls_mem_bio_loopback.rs:81-96 | the receiver has consumed a prefix of what the sender emitted, and all of it exactly when the queues and the pump are empty |
| `MemBio.Link.OfferStep` | src/tls.c:975-982 | exactly the accepted number of leading bytes moves from the hands of the pump to the queue, the rest stays in order |
| `MemBio.Link.EngineStep` | src/tls.c:943-967 | an engine reads from the front of its own queue and writes at the end of the other, and both histories grow by those bytes |
| `MemBio.Link.TakeStep` | src/tls.c:984-995 | the smaller of queue length and maximum, or nothing above the C int range, leaves the front of the out-BIO for the end of those in hand; nothing else moves |
| `MemBio.FlushDelivers` | examples/host/tests/tls_mem_bio_loopback.rs:81-96 | from every state a run reaches, taking the whole queue, offering all bytes in hand and reading all input are possible and leave the receiver with everything the sender has emitted |
| `MemBio.Link.Flush` | examples/host/tests/tls_mem_bio_loopback.rs:81-96 | the same through the endpoints, with all queues of that direction empty afterwards |
| `MemBio.AllowedCalls` | src/tls.c:943-995 | a call is ruled out only if an engine would read, or the pump offer, more than there is, or a write report more than it was offered |
| `MemBio.Endpoint.BioRead` | src/tls.c:984-995 | at most max bytes leave the front of the out-BIO, none when the amount due exceeds the C int range |
| `MemBio.Endpoint.BioWrite` | src/tls.c:975-982 | exactly the reported number of leading bytes is queued |
| `MemBio.Endpoint.BioPending` | src/tls.c:997-1001 | the number returned is the length of the queue exactly when that fits 32 bits, and is otherwise short of it by a multiple of 2^32, so that it is zero for a queue that is not empty exactly at such multiples |
| `MemBio.Endpoint.ReadPending` | src/tls.c:984-1001 | reading the pending number empties the queue exactly when its length is within the C int range, and gives nothing when it is above that and fits 32 bits |
| `MemBio.Endpoint.DoHandshake` | src/tls.c:943-967 | would-block and failure are told apart, and handshake_done is set on success and never reset |
| `OsslParams.ExportImport` | src/provider_wit.c:198-363 | exporting and importing returns each string and octet entry with its value, in order, and returns the list itself exactly when no delivered key holds a zero byte |
| `OsslParams.ThereAndBack` | src/provider_wit.c:278-363 | the same entry by entry through the export loop, with keys terminated in place, and the two passes of the import |
| `OsslParams.KeyCut` | src/provider_wit.c:211-220 | a key with a zero byte in its middle comes back cut |
| `OsslParams.Emit` | src/provider_wit.c:211-276 | one entry is appended at the running index for each variant carried and nothing for the others, the rest of the array unchanged; a zero byte is written one past the key and nowhere else in its memory |
| `OsslParams.Export` | src/provider_wit.c:295-301 | one inner list becomes its entries in order and the end marker, within inner length + 1; each key is terminated in place |
| `OsslParams.ExportAll` | src/provider_wit.c:278-313 | the callback sees the array of each inner list in order, up to the first that cannot be allocated; the export succeeds exactly when all are allocated and accepted, and a refusal does not end it |
| `OsslParams.EmittedNumber` | src/provider_wit.c:256-270 | an exported 64-bit number, signed or not, reads back as itself |
| `OsslParams.EmittedMeans` | src/provider_wit.c:211-276 | which variants give an entry, and its key, type, size and bytes |
| `OsslParams.WantedMeans` | src/provider_wit.c:338-360 | which entries are taken in, and with which key and bytes |
| `OsslParams.Build` | src/provider_wit.c:333-363 | the fill pass writes exactly the number of entries the count pass found: the wanted entries before the end marker, in order |
| `OsslParams.SignIsFilter` | src/provider_wit.c:585-608 | the marshaller of the signature thunks returns the string entries of the full one |
| `OsslParams.GetParams` | src/provider_wit.c:464-489 | every request is answered from its old value by the first entry that accepts it, which has the key of the request, or with return size 0 and untouched memory, as always when no entry has its key; no request disturbs another; the call stores through a null pointer exactly when some request does, at the first of them |
| `OsslParams.AcceptsMeans` | src/provider_wit.c:391-457 | the exact condition of acceptance and of a store through null, on key, type, width, room and memory |
| `OsslParams.DeliveredMeans` | src/provider_wit.c:396-457 | the exact contents of the memory and the return size after each kind of value |
| `OsslParams.AnswerOne` | src/provider_wit.c:478-486 | one request stores through null exactly when it asks for a 4- or 8-byte number without memory and a number entry of its key comes before any entry that accepts it |
| `OsslParams.NumberWithoutMemory` | src/provider_wit.c:443-457 | a size query for an integer that the list holds is such a request |
| `OsslParams.FillOne` | src/provider_wit.c:391-462 | an entry is accepted exactly when key, type and room agree, and stores through null exactly when it is a number for a number request of its key without memory; a request with another key is left exactly as it was; an accepted one stores its value and a refused one changes nothing but the return size |
| `OsslParams.AcceptsIgnoresSize` | src/provider_wit.c:481-484 | a refused entry does not influence the ones after it |
| `OsslParams.AnswerUnique` | src/provider_wit.c:478-486 | the request and the list determine the answer |
| `OsslParams.ValuePreserved` | src/provider_wit.c:396-457 | what is read back is the value exactly when it is a text of at most 255 bytes without zero bytes, any octet string, or an integer in the range of the requested type |
| `OsslParams.TextsCut` | src/provider_wit.c:396-406 | a text of 256 bytes loses its last byte, and a text is cut at its first zero byte |
| `OsslParams.IntegersWrap` | src/provider_wit.c:428-433 | 2^32 + 7 is read back as 7 through four bytes, and 2^31 as negative through a signed request |
| `OsslParams.CoercionExact` | src/provider_wit.c:419-457 | storing through a narrower or differently signed pointer keeps an integer exactly when it fits |
| `OsslParams.Weights` | src/provider_wit.c:428-433 | which byte of memory weighs what, and when the top bit is a sign |
| `OsslParams.Ranges` | src/provider_wit.c:428-433 | the ranges of the four C integer types a request can name |
| `OsslParams.FallbackNeverApplies` | src/provider_wit.c:407-411 | the hand-written copy after a refused set is unreachable |
| `OsslParams.SizeThenFetch` | src/provider_wit.c:391-417 | after a size query, a request with that much memory is accepted by the same entry exactly when it asks for the kind of that entry |
| `BioDrain.Drain` | src/decoder_wit.c:114-133 | the result is the concatenation of all chunks before the read that ended it; every read is offered at least 4096 bytes; capacity is 4096 times a power of two and stays below 2n+8192; it fails exactly when a needed capacity is refused; a faithful BIO is drained of its whole stream |
| `BioDrain.CapacityDoubles` | src/decoder_wit.c:119-125 | doubling a full buffer restores both the room and the bound on the capacity |
| `BioDrain.ConcatLaws` | src/decoder_wit.c:126-129 | the drained bytes of two stretches of reads are those of one after the other |
| `HkdfLabel.ExpandLabelInfo` | src/kdf.c:275-307 | the buffer is filled to its last byte with the structure of section 7.1 of RFC 8446; an unknown digest is refused first, then exactly the parameters with a field too long for its length bytes |
| `HkdfLabel.ParseEncoded` | src/kdf.c:285-307 | a strict parser recovers output length, label and context from every accepted input |
| `HkdfLabel.EncodedInOrder` | src/kdf.c:285-307 | the fields in their order, each length byte with what it counts, and the letters of the prefix |
| `HkdfLabel.EncodedParse` | src/kdf.c:285-307 | whatever the strict parser accepts is the encoding of what it returns |
| `HkdfLabel.PrefixFree` | src/kdf.c:285-307 | no encoding is a prefix of another, so the encoding is injective |
| `HkdfLabel.Injective` | src/kdf.c:275-307 | each call gives the encoding of its parameters or a refusal, and two accepted calls build the same bytes only for equal parameters |
| `HkdfLabel.EmptyLabelAccepted` | src/kdf.c:287-293 | the lower bound of 7 on the label vector of section 7.1 of RFC 8446 is met exactly when the label is not empty; an empty one is encoded and recovered all the same |
| `HkdfLabel.EmptyLabelExample` | src/kdf.c:287-293 | sixteen bytes of output with empty label and context are accepted with a label vector of 6 bytes |
| `Framing.HandleConn` | examples/sign-service/src/main.rs:121-153 | however the stream is split into reads, the request is a function of the whole stream: head before the first blank line, body cut to the declared length or to the end of stream |
| `Framing.FirstStays` | examples/sign-service/src/main.rs:127-130 | a blank line found in a prefix of the stream is the first of the whole stream |
| `Framing.HeadAndBody` | examples/sign-service/src/main.rs:130-134 | the head ends before the first blank line, and the body starts four bytes later |
| `Framing.BlankIs` | examples/sign-service/src/main.rs:128-130 | a blank line is the four bytes 13, 10, 13, 10, and without one all is head |
| `Framing.MeaningOf` | examples/sign-service/src/main.rs:135-153 | a head without three words is refused; otherwise the body is a prefix of what follows, of the declared length or all there is |
| `Framing.CompleteBodyDecides` | examples/sign-service/src/main.rs:146-153 | bytes after a head and body change the request exactly when the body was still short of its declared length |
| `Hex.UnhexHex` | examples/sign-service/src/main.rs:86-98 | reading the printed text returns the bytes, for every byte string |
| `Hex.HexUnhex` | examples/sign-service/src/main.rs:86-98 | printing what was read returns the text exactly when it is all lower-case digits |
| `Hex.UnhexAccepts` | examples/sign-service/src/main.rs:93-98 | a text is read exactly when it has even length and each pair is two digits of either case or a plus sign and a digit |
| `Hex.UnhexAborts` | examples/sign-service/src/main.rs:93-98 | slicing aborts exactly when a character runs over the end of the first pair that does not read |
| `Hex.TextsThatChange` | examples/sign-service/src/main.rs:93-98 | upper-case digits, and a plus sign with a digit, are read but printed differently |
| `Hex.TextThatAborts` | examples/sign-service/src/main.rs:93-98 | a four-byte text with an accented second letter aborts |
| `Hex.Hex` | examples/sign-service/src/main.rs:86-91 | the printing loop appends the two digits of each byte in order |
| `Hex.Digits` | examples/sign-service/src/main.rs:86-98 | the sixteen digits of either case and their values, and no others |
| `Hex.PairsRead` | examples/sign-service/src/main.rs:93-98 | how two bytes are read, and which bytes continue a character |
| `IsoTime.ParsePrinted` | src/x509_build.c:151-165 | every printed time is read back as the same time, except the last second of 1969, which is refused; the empty text of an absent time is refused |
| `IsoTime.ParsedIsStable` | src/x509_build.c:151-165 | whatever text is read as a time, the text printed of that time is read as the same time |
| `IsoTime.DaysCarryOver` | src/x509_build.c:158-162 | the 30th of February 2023 is read as the 2nd of March, and a 13th month of 2023 as January 2024 |
| `IsoTime.FieldsKept` | src/x509_build.c:151-165 | for every text: it is refused exactly when fewer than six fields convert or they denote the second before 1970; the fields are kept exactly when they are a calendar time other than that; other fields are carried over to the calendar time of the same seconds, if there is one |
| `IsoTime.PrintThenParse` | src/x509_build.c:151-165 | through both buffers a printed time is read as itself, or refused if it is the last second of 1969 |
| `IsoTime.ScanRender` | src/x509_build.c:158-159 | for any format whose numbers are followed by non-digits, scanning recovers every printed field, whatever the widths |
| `IsoTime.Digits` | src/x509_build.c:158-159 | the ten digits, their values, and the white space a conversion skips |
| `IsoTime.IntTaken` | src/x509_build.c:158-159 | a conversion takes white space, at most one sign and the longest run of digits |
| `IsoTime.NoIntTaken` | src/x509_build.c:158-159 | and otherwise nothing |
| `IsoTime.ScanEnds` | src/x509_build.c:158-159 | a scan ends at the first mismatch |
| `IsoTime.CutMeans` | src/x509_build.c:152-154 | at most 31 characters of the text are looked at |
| `IsoTime.FieldsRecovered` | src/x509_build.c:151-165 | the field scan recovers all six fields from the printed text |
| `IsoTime.IsoTextShape` | src/x509.c:76-81 | the printed text is six zero-padded fields with their separators, 20 characters without a zero byte, so it fits the buffer of 32 |
| `IsoTime.AsnTimeToIso` | src/x509.c:72-82 | the C string taken from the buffer is the whole printed text, or empty |
| `IsoTime.ParseIso` | src/x509_build.c:151-165 | the copy into the buffer, the scan, the field assignments and ASN1_TIME_set give the time the text denotes, refused unless six fields convert and when its seconds equal the error value -1 |
| `IsoTime.AsnTimeSet` | src/x509_build.c:164 | the calendar time of a number of seconds, or none for years outside 0 to 9999 |
| `IsoTime.DenotedDate` | src/x509_build.c:162-164 | a calendar time is the one its own number of seconds denotes |
| `IsoTime.SecondsInjective` | src/x509_build.c:160-164 | different calendar times are different numbers of seconds |
| `IsoTime.SecondsCounted` | src/x509_build.c:160-162 | seconds count from the start of 1970 in minutes, hours and days of fixed length |
| `IsoTime.MonthsFollow` | src/x509_build.c:160-162 | each month ends where the next one starts |
| `IsoTime.MonthsCarry` | src/x509_build.c:160-162 | a month beyond the year is one of the next year |
| `IsoTime.MonthLengths` | src/x509_build.c:160-162 | the lengths of the twelve months, and the years that have a 29th of February |

## Left out

- The AES key schedule belongs to OpenSSL; schedules are inputs, with the relation between the two schedules stated as `AesSimd.IsDecryptKey`.
- The fallback to `__real_AES_*` for other round counts and builds without vector instructions only forwards.
- Both substitution tables are packed sixteen bytes to a literal; the values are those of the source.
- Timing, including the claim that no branch depends on data, is not part of this model.
- AesSimd.SubBytes: takes and returns the vector as a value; the local byte array is overwritten in a loop as in the source.
- AesSimd.InvSubBytes: as for SubBytes.
- TlsLifecycle.Ledger.Close: the rep structures are values in a table of resources, replaced when a field changes, so the identity of a structure in memory is a field of its own.
- X509Store.World.AttachContext: certificates and keys that a TLS configuration passes by value are not modelled, only the trust store is.
- TlsLifecycle.Ledger.NewMemBio: one method for the client and the server constructor, which differ in the protocol list; src/tls.c:1149-1261 is the server.
- TlsLifecycle.Ledger.Connect: short-lived copies of cipher lists, group lists and host names that are freed on the next line have no effect on the balance and are not listed, except the host name that lives across the connection attempt.
- Numeric error details next to an error tag, and messages on stderr, are not modelled.
- X509Store.World.Parse: text that does not parse creates nothing and is not an operation of the run; parse-chain, CRLs, names, PKCS#12 and keys are left out.
- X509Store.World.VerifyChain: which chain is built, and with which options, is a parameter.
- Keylog.KeylogBuf.Append: the allocation of a line's copy ends the program when it fails, so it has no failing branch; the null checks are not modelled, since Dafny references are not null.
- MemBio.Endpoint.BioWrite: the client's methods stand for the server's, src/tls.c:1263-1320, which are the same.
- MemBio.Link.Run: it starts from two new endpoints; which bytes the TLS engine emits, and when the handshake finishes, is arbitrary.
- OsslParams.Build: one method for `build_wit_params_full` and `build_wit_params_for_sign`, which differ in keeping octet strings; allocation of the list is taken to succeed, as the source does; its two passes are the methods `CountWanted` and `FillWanted`.
- OsslParams.Emit: memory that an export gives up on purpose for later readers is not accounted for; pointers into the list are copies of the bytes they point to.
- OsslParams.FillOne: `int` has 4 bytes and `size_t` coincides with it, as on the wasm32 target; what follows a store through null is not modelled; an empty octet value has a non-null pointer.
- BioDrain.Drain: `size_t` is unbounded; the allocator is a limit on the size of a block.
- HkdfLabel.ExpandLabelInfo: the key derivation that consumes the structure is in libcrypto; `size_t` is unbounded.
- Alpn.AlpnWire: `size_t` is unbounded; the choice of a common protocol is made in libssl.
- Framing.HandleConn: splitting the first line and reading the content-length header are arbitrary functions of the head; I/O errors and the routes after framing are left out.
- IsoTime.ParseIso: numbers outside the range of `int`, which the C library leaves undefined, are read as integers; what libcrypto makes of a year outside 0 to 9999 is not modelled.
- Thin wrappers that forward to libcrypto (ciphers, MACs, public keys, big numbers, most key derivations), the algorithm tables, sockets, the hosts and the build scripts would add only easy members.
