# A verified model of the proxy checker's protocol core

The checker decides whether an MTProto proxy works by speaking the whole protocol through it. This project
models the parts of it whose correctness is hard to see and proves what they are for:

- **Factorisation** (`Words`, `NumberTheory`, `Factorize`, `Cycles`): Brent's cycle finder on 64-bit words. The batched
  gcds, the doubling rounds, the replay and the step budget are proved equal to a declarative outcome of the walk,
  and from it follow soundness, failure on primes, exactness on semiprimes, and that a cycle modulo a hidden divisor
  is found.
- **TL serialisation** (`Tl`), **sockets** (`Conns`), **TLS records** (`Records`), **obfuscation** (`Obfuscate`),
  **packet transports** (`Transport`) and the stream over all of them (`Stack`): objects stacked as the program stacks
  them, over reads of arbitrary sizes, and a peer built from the same parts that recovers the messages and is answered.
- **AES-IGE**, **RSA_PAD**, **encrypted sessions** (`Ige`, `RsaPad`, `Session`): both directions are inverse, and
  the peer's inverse, which the repository does not contain, is written out and proved.
- **The key exchange** (`ModExp`, `Plaintext`, `AuthKey`, `Handshake`): the client against any peer, and against an
  honest server, with which it agrees on key, key id and salt.
- **Replies** (`Dispatch`, `Replies`): containers, compression, salts, the wait of sixteen packets and the one retry;
  and what becomes of everything an honest server composes, nests, compresses and encrypts.
- **FakeTLS** (`ClientHello`, `ServerHello`): the hello builder with its length scopes, a strict parser that gets the
  hello back, and the answer's collection and check.
- **The web-proxy carrier** (`Frame`, `Relay`, `RelayRuns`, `Carrier`, `WebSocket`): the relay stream as a state machine over every
  run, the object that refines it, and the WebSocket framing under it.
- **The worker pool** (`WorkerPool`): every interleaving of any number of workers.

Objects that the program updates in place are classes whose methods are proved against functions of the old state;
the theorems about whole runs are lemmas about those functions. Errors are values of `Wrappers.Error`.
SHA-1, SHA-256 and HMAC are arbitrary functions with results of fixed length; AES is a permutation of blocks under
every key (`Crypto.Suite.Lawful`); RSA is a permutation of the residues below its modulus (`RsaPad.RsaKey.Lawful`).
Random draws, clocks, replies of the peer and verdicts of the transport are inputs.

Where the code and its documentation or the standards differ, the model follows the code:

- The product carried from batch to batch is not reset; that is harmless because it stays coprime to n
  (`Factorize.CarriedProduct`). A replay always finds its point unless the step budget stops it, which cannot happen up
  to round 17, may in round 18 and always does in round 19 (`Factorize.SettleExactly`, `Factorize.ReplayBudget`).
- The GREASE group in the hello's key share is never among the supported groups (`ClientHello.ShareGroupNotOffered`),
  although section 4.2.8 of RFC 8446 asks that it is.
- The reader of the server's answer collects flights with a second handshake record, which the check then always
  refuses (`ServerHello.SecondHandshakeRefused`).
- An announced salt is kept even when the message that brings it decides nothing (`Dispatch.ScanDecides`), and an
  error behind 16 MiB of decompressed data is never seen (`Dispatch.Unpacked`).
- The credit that a closed carrier can no longer send is dropped and accounted for as such (`Relay.CreditConserved`).

## Model
| member | source | states |
|---|---|---|
| Words.AddMod | internal/mtproto/factorize.go:85-91 | for residues the sum modulo n is exact, although the word sum may wrap |
| Words.MulMod | internal/mtproto/factorize.go:93-97 | the 128-bit product reduced modulo n is exact for every word modulus |
| Words.Next | internal/mtproto/factorize.go:76-76 | one step of the walk is exactly x^2 + c modulo n |
| Words.GcdWords | internal/mtproto/factorize.go:99-104 | Euclid's loop computes the greatest common divisor |
| Factorize.ProductCoprime | internal/mtproto/factorize.go:51-58 | a batch's product is coprime to n exactly when none of its points shares a factor with n |
| Factorize.CarriedProduct | internal/mtproto/factorize.go:52-57 | a product carried over from quiet batches does not change the gcd of the next one |
| Factorize.Batch | internal/mtproto/factorize.go:51-57 | one batch ends at the right point, with the gcd of its product, which is 1 exactly when no point meets |
| Factorize.Replay | internal/mtproto/factorize.go:62-72 | walking the batch again yields the outcome of the walk: the first meeting point's gcd, or 1 over budget |
| Factorize.ReplayTarget | internal/mtproto/factorize.go:62-72 | when a batch ended with gcd n, the replay from its start meets at the batch's first meeting point within the batch |
| Factorize.Round | internal/mtproto/factorize.go:44-59 | a doubling round either stays quiet and hands on the invariant, or stops at the first batch that is not |
| Factorize.Brent | internal/mtproto/factorize.go:27-74 | the result is the declarative outcome of the seeded walk, in at most 2^21 - 2 modular steps |
| Factorize.OutcomeDivides | internal/mtproto/factorize.go:27-74 | every outcome is a divisor of n between 1 and n |
| Factorize.SettleExactly | internal/mtproto/factorize.go:62-72 | a batch that is not quiet yields 1 exactly when its gcd was n and its replay is over budget |
| Factorize.ReplayBudget | internal/mtproto/factorize.go:43-69 | the replay always fits the budget up to round 17 and never in round 19 |
| Factorize.CollisionFound | internal/mtproto/factorize.go:40-73 | up to round 17, two compared points that agree modulo a hidden factor make the attempt find a factor greater than 1, wherever in a batch they lie |
| Cycles.StepResidue | internal/mtproto/factorize.go:76-76 | points that agree modulo a divisor of n are followed by points that agree modulo it |
| Cycles.CycleFound | internal/mtproto/factorize.go:40-73 | a round up to 17 that starts on the cycle modulo a hidden divisor, and is no shorter than its period, finds a factor greater than 1 |
| Cycles.SmallDivisorFound | internal/mtproto/factorize.go:27-74 | whatever the random words, n with a divisor from 2 to 2^17 never yields 1 |
| Cycles.OutcomeIsOneExactly | internal/mtproto/factorize.go:40-73 | an attempt yields 1 exactly when no compared point shares a factor with n, or the first batch with one has gcd n and its replay is over budget |
| Factorize.FactorizePQ | internal/mtproto/factorize.go:9-23 | the eight attempts, in order, decide as in the next row |
| Factorize.FactoredExactly | internal/mtproto/factorize.go:9-23 | factors are returned exactly when the number is even or some attempt yields a proper factor, and NoFactor otherwise; an even number is halved, and for an odd one the first proper factor is one of the pair |
| Factorize.SeedsCover | internal/mtproto/factorize.go:32-34 | every start and every step constant from 1 to n-1 is drawn by some word |
| Factorize.FactorizeSound | internal/mtproto/factorize.go:9-23 | success means p*q = pq, and for odd pq also 1 < p <= q < pq |
| Factorize.OddPrimeFails | internal/mtproto/factorize.go:9-23 | an odd prime always ends in the error |
| Factorize.SemiprimeFactors | internal/mtproto/factorize.go:9-23 | a product of two odd primes is only ever split into those primes |
| Tl.Buf.Str | internal/mtproto/tl.go:22-32 | a byte string is appended with its length form and zero padding to the next word of the buffer |
| Tl.Cursor.Str | internal/mtproto/tl.go:63-75 | the reader's byte-string step on its whole state, alignment and errors included |
| Tl.Cursor.VectorLong | internal/mtproto/tl.go:77-94 | the loop over a vector of longs reads what the specification reads, errors and limits included |
| Tl.FieldsRoundTrip | internal/mtproto/tl.go:12-102 | any sequence of fields is read back unchanged, without error, with the cursor exactly behind it |
| Tl.VectorAhead | internal/mtproto/tl.go:77-94 | a vector of up to 64 longs is read back |
| Tl.StringExactly | internal/mtproto/tl.go:22-75 | a byte string survives exactly when its length fits three bytes |
| Tl.StringLayout | internal/mtproto/tl.go:22-32 | where length, bytes and zeros of a written string stand |
| Tl.WordLayout | internal/mtproto/tl.go:12-14 | integers stand with the least significant byte first |
| Tl.TakeExactly | internal/mtproto/tl.go:45-56 | a read succeeds exactly when nothing failed before and enough is left; otherwise it yields zeros and keeps the first error |
| Tl.VectorRefused | internal/mtproto/tl.go:77-94 | a vector with another constructor or more than 64 elements is refused |
| Tl.FieldsAligned | internal/mtproto/tl.go:12-32 | messages whose raw fields are whole words are whole words |
| Ige.IgeEncrypt | internal/mtproto/ige.go:8-33 | the chained block loop equals the recursive definition; bad keys, lengths and IVs are refused |
| Ige.IgeDecrypt | internal/mtproto/ige.go:35-60 | the same for decryption |
| Ige.IgeInverse | internal/mtproto/ige.go:8-60 | encryption and decryption are inverse in both orders for every lawful block cipher, key, IV and length |
| Ige.EncBlock | internal/mtproto/ige.go:8-33 | block k: combined with the ciphertext block before, encrypted, combined with the plaintext block before; the IV's halves stand before the first |
| Ige.RefusesExactly | internal/mtproto/ige.go:8-52 | exactly which keys, lengths and IVs are refused, in which order |
| Session.Session.Encrypt | internal/mtproto/session.go:100-127 | the n-th packet (from 0) is the sealed plaintext with sequence number 2n+1 modulo 2^32 |
| Session.PaddingFor | internal/mtproto/session.go:112-117 | padding is 12 to 27 bytes and completes a whole block |
| Session.UnsealSeal | internal/mtproto/session.go:100-145 | a mirrored peer opens every sealed plaintext, in either direction |
| Session.UnsealExactly | internal/mtproto/session.go:129-145 | nothing is opened but what was sealed under the same key in the same direction |
| Session.OpenedExactly | internal/mtproto/session.go:129-155 | a body is taken from a packet exactly when the packet is the seal of whole blocks that hold it behind its length |
| Session.MessageKeyLayout | internal/mtproto/session.go:157-160 | which bytes of the key, shifted by the direction, and which bytes of the digest make the message key |
| Session.MessageKeysLayout | internal/mtproto/session.go:162-168 | which bytes of which digest make the AES key and the IV |
| Session.ServerReads | internal/mtproto/session.go:100-127 | the server learns salt, session id, message id, sequence number and body of every packet |
| Session.ReplyReadExactly | internal/mtproto/session.go:129-155 | a reply's body is recovered exactly when it has at least four bytes and its length fits a word |
| RsaPad.RsaPad | internal/mtproto/rsa.go:93-129 | the retry loop returns the first envelope below the modulus; over 144 bytes are refused |
| RsaPad.ReverseBytes | internal/mtproto/obfuscate.go:118-124 | the loop reverses the bytes |
| RsaPad.UnpadFirstFit | internal/mtproto/rsa.go:93-129 | the key holder undoes every envelope: temporary key, cipher, reversal and hash |
| RsaPad.FirstFitFails | internal/mtproto/rsa.go:107-128 | it fails exactly when all drawn envelopes reach the modulus |
| ModExp.Agreement | internal/mtproto/auth.go:109-141 | both orders of exponentiation modulo m agree |
| ModExp.ExpLaws | internal/mtproto/auth.go:109-141 | the zeroth and first powers, and that exponents add: what makes it exponentiation modulo m |
| Plaintext.SendUnencrypted | internal/mtproto/auth.go:362-369 | the message is a zero key id, the message id, the length and the body |
| Plaintext.UnwrapsExactly | internal/mtproto/auth.go:362-405 | a body comes back exactly when it has four bytes or more and fits the length word |
| Plaintext.UnwrapsOnly | internal/mtproto/auth.go:389-405 | nothing else is taken for a message than a zero key id, some message id, the body's length, the body and anything behind |
| AuthKey.BigEndianBytes | internal/mtproto/auth.go:315-321 | the shortest big-endian form of a word, by stripping zeros |
| AuthKey.BigEndianValue | internal/mtproto/auth.go:315-321 | the stripped form has at most eight bytes and keeps the value |
| AuthKey.ParseResPQ | internal/mtproto/auth.go:162-178 | the cursor's reading of resPQ with all its checks |
| AuthKey.ParseServerDHParams | internal/mtproto/auth.go:191-234 | the decryption and checks of the server's parameters |
| AuthKey.SelectKey | internal/mtproto/rsa.go:78-91 | the first offered fingerprint that is known |
| AuthKey.SelectedExactly | internal/mtproto/rsa.go:78-91 | a key with the first offered fingerprint that is known, also behind unknown ones; the error exactly when none is known |
| AuthKey.EncryptDHInner | internal/mtproto/auth.go:236-247 | hash, data and filler to whole blocks, encrypted |
| AuthKey.CreateAuthKey | internal/mtproto/auth.go:38-153 | against any peer, the exchange as carried out with buffers and cursors equals its step-by-step specification |
| AuthKey.EstablishedOnly | internal/mtproto/auth.go:38-153 | against any peer at all, a key is established only from admissible parameters, and only if the last reply echoes both nonces and carries the hash that needs that key |
| AuthKey.CheckedExactly | internal/mtproto/auth.go:273-300 | no error exactly for a generator from 2 to 7, a prime of 2048 bits, a half strictly between 1 and prime-1, and a prime seen before or passing the test together with its own half; and which error belongs to which demand |
| AuthKey.ResPQEchoes | internal/mtproto/auth.go:162-178 | the first reply is accepted only with its constructor and our nonce |
| AuthKey.ParamsEcho | internal/mtproto/auth.go:191-234 | the parameters are accepted only if both layers echo both nonces and the hash matches the data read |
| AuthKey.GenExactly | internal/mtproto/auth.go:249-269 | the closing message is accepted exactly if it echoes both nonces and carries the new nonce's hash |
| AuthKey.TempKeysLayout | internal/mtproto/auth.go:180-189 | which byte of which digest stands where in the temporary key and IV |
| AuthKey.NewNonceHashLayout | internal/mtproto/auth.go:264-267 | which bytes of which digest confirm the key |
| AuthKey.InnerDataFits | internal/mtproto/auth.go:69-82 | the inner data has at most 108 bytes, so the 144-byte guard never trips |
| Handshake.FirstRound | internal/mtproto/auth.go:38-72 | against an honest server the client learns its offer |
| Handshake.SecondRound | internal/mtproto/auth.go:56-107 | an honest server that holds the keys it offers reads the second packet, whatever keys the client knows, and the client accepts its parameters |
| Handshake.SharedAgrees | internal/mtproto/auth.go:109-141 | both sides compute the same padded 2048-bit value |
| Handshake.ThirdRound | internal/mtproto/auth.go:109-153 | the server decrypts the client's half to g^b, the client accepts the hash, and the server holds the same key |
| Handshake.KeyAgreement | internal/mtproto/auth.go:38-153 | for any list of keys the client knows, against any server that follows the protocol with a 2048-bit safe prime, a small generator and a proper half, and holds the keys it offers: without a second packet its error is the result, and with one the exchange succeeds, key, key id and salt agree on both sides, and the time offset is the server's clock less ours |
| Handshake.SecondExactly | internal/mtproto/auth.go:56-92 | the inner data has at most 108 bytes; and there is a second packet exactly when some attempt yields a proper factor (or the number is even), an offered key is known and one of the drawn envelopes is below its modulus |
| Handshake.AgreementExactly | internal/mtproto/auth.go:38-153 | the whole exchange with an honest server succeeds exactly when some attempt yields a proper factor (or the number is even), an offered key is known and one of the drawn envelopes is below its modulus |
| Handshake.InnerDataHeard | internal/mtproto/auth.go:69-79 | the key holder reads back number, factors, nonces and data centre from the inner data |
| Transport.DecodeIntermediate | internal/mtproto/transport.go:65-75 | reads one packet off the socket or the obfuscated connection and leaves the rest, or the error; what was written stays |
| Transport.DecodePadded | internal/mtproto/transport.go:89-98 | the same, with the remainder modulo four dropped |
| Transport.DecodeAbridged | internal/mtproto/transport.go:112-130 | the same for both length forms of the abridged framing |
| Transport.DecodesExactly | internal/mtproto/transport.go:58-130 | in each framing a message is decoded to itself exactly when its length is positive, within 1 MiB and, but for the intermediate framing, a multiple of four |
| Transport.DecodesOnly | internal/mtproto/transport.go:65-130 | each decoder accepts exactly the wire forms of packets from 1 byte to 1 MiB, and what it returns for them |
| Transport.DecodeAllEncoded | internal/mtproto/transport.go:58-130 | a series of packets decodes to the series of messages |
| Obfuscate.ObfuscationHeader | internal/mtproto/obfuscate.go:77-107 | the first inconspicuous draw, marked with tag and data centre |
| Obfuscate.HeaderExactly | internal/mtproto/obfuscate.go:77-107 | the first draw that begins with no transport tag, no HTTP method, no TLS hello and no zero second word, with six bytes marked; the error exactly without such a draw |
| Obfuscate.CipherLayout | internal/mtproto/obfuscate.go:30-35 | which header bytes make the keys and counters of both directions |
| Obfuscate.CtrBlock | internal/mtproto/obfuscate.go:46-53 | the k-th block is combined with the cipher of the initial counter plus k (NIST SP 800-38A, section 6.5) |
| Obfuscate.CtrCuts | internal/mtproto/obfuscate.go:46-75 | data at any offset is combined with the joined counter blocks cut at that offset |
| Obfuscate.MatchesAny | internal/mtproto/obfuscate.go:109-116 | membership in the list of forbidden prefixes |
| Obfuscate.PeerDerives | internal/mtproto/obfuscate.go:24-60 | from the wire header alone the peer derives both ciphers and recovers the last eight bytes |
| Obfuscate.MarkRecovered | internal/mtproto/obfuscate.go:104-105 | tag and signed data-centre number are read back from the marked header |
| Obfuscate.CtrAppend | internal/mtproto/obfuscate.go:62-66 | the keystream over a concatenation is the keystream over its parts at their positions |
| Obfuscate.CtrInvolutive | internal/mtproto/obfuscate.go:62-75 | applying the keystream twice at one position gives the data back |
| Obfuscate.ObfuscatedJoined | internal/mtproto/obfuscate.go:62-66 | however the stream is cut into writes, it is one keystream application from offset 64 |
| Obfuscate.NewObfConn | internal/mtproto/obfuscate.go:24-60 | the carrier gets the wire header, and both ciphers start where they should |
| Obfuscate.ObfConn.Write | internal/mtproto/obfuscate.go:62-66 | what reaches the carrier, bare or TLS, is the data combined with the counter blocks cut at the writing position; reading is not disturbed |
| Obfuscate.ObfConn.ReadFull | internal/mtproto/obfuscate.go:68-75 | the next n bytes of what the carrier carries, however they arrive, combined with the counter blocks cut at the reading position |
| Records.TlsConn.Write | internal/mtproto/faketls.go:258-274 | a change-cipher record once, then one application record per 16384 bytes; the socket keeps holding the records of all writes |
| Records.TlsConn.Read | internal/mtproto/faketls.go:276-297 | bytes handed out and bytes pending together never change: records are taken in only as needed |
| Records.TlsConn.ReadFull | internal/mtproto/obfuscate.go:68-75 | n bytes through as many reads as the records take are the next n of what is carried |
| Conns.Conn.ReadFull | internal/mtproto/transport.go:28-32 | n bytes through socket reads of arbitrary sizes are the next n of the input |
| Records.WritesCarried | internal/mtproto/faketls.go:258-297 | a series of writes of any sizes is carried as their concatenation |
| Records.DataWithinLimit | internal/mtproto/faketls.go:258-274 | every record written is application data with its version, not empty and within the limit of section 5.1 of RFC 8446 |
| Stack.Stream.SendRaw | internal/mtproto/auth.go:371-387 | one packet per accepted message, a direct connection's tag once before the first; a refused message changes nothing |
| Stack.Stream.RecvRaw | internal/mtproto/auth.go:407-416 | one packet is decoded off the link by the stream's framing; what was sent stays |
| Stack.SendAll | internal/mtproto/auth.go:371-387 | a series of sends leaves exactly the packets of the series on the link |
| Stack.ReceiveAll | internal/mtproto/auth.go:407-416 | a series of receives yields the messages packed, in order, and leaves what is behind them |
| Stack.CarrierDelivers | internal/mtproto/faketls.go:258-297 | the other end of a carrier, bare or TLS behind any handshake, is delivered exactly what was written to it |
| Stack.ClientDelivers | internal/mtproto/obfuscate.go:24-66 | in every state of a client's stream its wire amounts to the header and one keystream over the accepted packets |
| Stack.MessagesRecovered | internal/mtproto/auth.go:371-387 | in every state of a client's stream, a peer that sees only the bytes delivered recovers exactly the messages accepted so far, in every framing, bare or through TLS records |
| Stack.DirectDelivers | internal/mtproto/socks5.go:221-231 | a direct connection carries its tag and the bare packets, which decode to the messages accepted |
| Stack.Converse | internal/mtproto/probe.go:340-453 | client and peer as stacked objects: the peer reads every request through reads of arbitrary sizes and answers, and the client reads every answer |
| Stack.FirstWords | internal/mtproto/auth.go:50-54 | the abridged framing never refuses the first packet of the exchange |
| Stack.SecondWords | internal/mtproto/auth.go:84-92 | nor the second |
| Stack.ThirdWords | internal/mtproto/auth.go:115-132 | nor the third |
| Stack.SessionWords | internal/mtproto/session.go:100-127 | nor any session packet |
| Dispatch.Walk | internal/mtproto/api.go:131-215 | the recursive walk returns the verdict, and leaves the salt, of a left-to-right scan over the flattened leaves |
| Dispatch.WalkContainer | internal/mtproto/api.go:163-186 | the container loop does so from any entry on; every entry is strictly smaller than its container |
| Dispatch.ReadResult | internal/mtproto/api.go:137-154 | which rpc_result answers the query, and what it unwraps to |
| Dispatch.ScanDecides | internal/mtproto/api.go:131-215 | the first leaf with a verdict decides and the salt is the last one announced up to it |
| Dispatch.ScanQuiet | internal/mtproto/api.go:131-215 | without a verdict all salts have been taken in and the last one stands |
| Dispatch.RetryExactly | internal/mtproto/api.go:188-199 | a retry is asked for exactly by a bad_server_salt with a complete salt |
| Replies.ResultRead | internal/mtproto/api.go:137-154 | a composed rpc_result says nothing for another query, and for ours what its unwrapped payload says |
| Replies.AnswerRead | internal/mtproto/api.go:137-154 | a composed answer comes out as it went in, bare or compressed |
| Replies.RefusalRead | internal/mtproto/api.go:217-227 | a composed rpc_error comes out with its signed code and its message |
| Replies.SaltRead | internal/mtproto/api.go:188-210 | a composed bad_server_salt asks for a retry under its salt; a new session announces its salt and decides nothing |
| Replies.RepliesScanned | internal/mtproto/api.go:102-215 | for replies an honest server nests, compresses and encrypts, waiting equals one scan over the leaves it put into the first sixteen |
| Replies.AnswerArrives | internal/mtproto/api.go:102-215 | an answer behind undeciding leaves is returned, with the last salt announced before it |
| Replies.CallAnswered | internal/mtproto/api.go:71-127 | a call whose query is answered returns the payload the server sent, after one packet |
| Replies.CallRetried | internal/mtproto/api.go:71-100 | behind one bad_server_salt the query goes out again under the salt it brought, and that answer is returned; a second one ends the call as rejected |
| Replies.CallRefused | internal/mtproto/api.go:71-127 | an rpc_error reaches the caller with its code and message |
| Replies.CallFails | internal/mtproto/api.go:71-127 | a failed send, a lost reply, no reply and sixteen replies that say nothing are each reported as such |
| Replies.PackedRead | internal/mtproto/api.go:229-245 | what is kept of a compressed object: 16 MiB at most, an error only before that |
| Replies.OtherRead | internal/mtproto/api.go:131-214 | a message of another kind decides nothing and brings no salt; one too short for a constructor is an error |
| Replies.ShortRead | internal/mtproto/api.go:137-210 | results and salts that are cut off |
| Replies.ContainerRefused | internal/mtproto/api.go:163-171 | a container of more than 64 entries is refused whole |
| Replies.EntryRefused | internal/mtproto/api.go:172-182 | an entry larger than its container is malformed, one that overruns it ends too early |
| Dispatch.EventsAreLeaves | internal/mtproto/api.go:156-186 | a well-formed nesting of containers and compressed parts flattens to exactly the leaves its sender put in |
| Dispatch.DepthSuffices | internal/mtproto/api.go:156-161 | the explicit bound on compression does not matter once it is not reached |
| Dispatch.EntryShrinks | internal/mtproto/api.go:172-180 | a container entry is at least sixteen bytes shorter than its container |
| Dispatch.AwaitResult | internal/mtproto/api.go:102-127 | at most sixteen replies are walked; verdict, salt and number of replies used |
| Dispatch.AwaitScans | internal/mtproto/api.go:102-127 | waiting is one scan over the leaves of all replies within the budget, whatever the packet boundaries |
| Dispatch.AwaitStops | internal/mtproto/api.go:102-127 | the reply that brings a verdict is the last one used |
| Dispatch.Invoke | internal/mtproto/api.go:71-100 | a second packet goes out exactly after a bad salt, under the salt then in force and the next odd number; what is returned is fixed by the rows on calls below |
| ClientHello.HelloBuilder.Put | internal/mtproto/faketls.go:145-145 | bytes go into the innermost open scope |
| ClientHello.HelloBuilder.Open | internal/mtproto/faketls.go:150-153 | a new innermost scope |
| ClientHello.HelloBuilder.Close | internal/mtproto/faketls.go:155-159 | the closed scope becomes a two-byte length and its bytes in the scope around it |
| ClientHello.HelloBuilder.Overwrite | internal/mtproto/faketls.go:148-148 | only the given range changes |
| ClientHello.Assemble | internal/mtproto/faketls.go:44-126 | the patched buffer is the nested serialisation of the intended hello |
| ClientHello.HelloRoundTrip | internal/mtproto/faketls.go:44-126 | a parser that insists on every length gets each well-sized hello back |
| ClientHello.UnsignedSize | internal/mtproto/faketls.go:117-126 | exactly 517 bytes whenever the unpadded hello is under 513, else the unpadded length |
| ClientHello.BuildClientHello | internal/mtproto/faketls.go:25-138 | succeeds exactly for encodable names, and returns the signed hello, its session id and random |
| ClientHello.HelloUnderstood | internal/mtproto/faketls.go:25-138 | the built hello parses; name, session id and random come out; its length is as promised |
| ClientHello.ProxyAuthenticates | internal/mtproto/faketls.go:128-135 | with the random zeroed, the digest xored with the random is 28 zeros and the clock |
| ClientHello.MakeGrease | internal/mtproto/faketls.go:321-335 | reserved values of which neighbours differ, each derived from its random byte |
| ClientHello.ShareGroupNotOffered | internal/mtproto/faketls.go:85-108 | the key share's GREASE group is never among the supported groups |
| ClientHello.EncodeSNI | internal/mtproto/faketls.go:345-359 | which names are refused and why; the others are cut to 255 bytes |
| ServerHello.SplitTLSRecords | internal/mtproto/faketls.go:232-246 | the loop cuts the data into whole records or fails |
| ServerHello.SplitExactly | internal/mtproto/faketls.go:232-246 | a cut is returned exactly when it joins back to the data |
| ServerHello.ReadServerHello | internal/mtproto/faketls.go:206-230 | what is collected, what is left unread, and the errors |
| ServerHello.ReadExactly | internal/mtproto/faketls.go:206-246 | a response is read exactly when it splits into records, a handshake first and the only application record last |
| ServerHello.VerifyServerHello | internal/mtproto/faketls.go:161-204 | accepted exactly when complete, echoing the session id and carrying its own digest; exactly when each error is given |
| ServerHello.HonestAccepted | internal/mtproto/faketls.go:161-246 | every stamped flight of an honest proxy is read in full and accepted |
| ServerHello.DigestExactly | internal/mtproto/faketls.go:193-203 | of all 32 bytes in the digest's place only the digest under the shared secret is accepted |
| ServerHello.SecondHandshakeRefused | internal/mtproto/faketls.go:175-230 | a collected flight with a second handshake record is never accepted |
| Frame.EncodeFrame | internal/webproxy/frame.go:33-42 | the header and payload written into one buffer |
| Frame.DecodeFrames | internal/webproxy/frame.go:44-67 | the offset loop parses the body or gives the error |
| Frame.FrameRoundTripExactly | internal/webproxy/frame.go:33-67 | a frame is read back exactly when its stream fits 24 bits and its payload 1 MiB |
| Frame.FrameLayout | internal/webproxy/frame.go:33-42 | where kind, stream, length and payload stand |
| Frame.ParseWire | internal/webproxy/frame.go:33-67 | every list of such frames decodes to itself |
| Frame.WireParse | internal/webproxy/frame.go:44-67 | every accepted body encodes back to itself |
| Carrier.Carrier.TakeWindowGrant | internal/webproxy/carrier.go:366-377 | the grant above the minimum, with the debt cleared |
| Carrier.Carrier.SendControl | internal/webproxy/carrier.go:381-388 | a control frame reaches the log unless the carrier is closed |
| Carrier.Carrier.Write | internal/webproxy/carrier.go:272-295 | takes the write step of the state machine: OPEN once, the grant owed, and the bytes in 64 KiB frames |
| Carrier.Carrier.Pump | internal/webproxy/carrier.go:323-357 | takes the pump step for one answer of the transport |
| Carrier.Carrier.HandleFrames | internal/webproxy/carrier.go:339-356 | takes the steps for the frames of one body, up to a BYE |
| Carrier.Carrier.GrantWindow | internal/webproxy/carrier.go:360-364 | takes the grant step |
| Carrier.Carrier.Read | internal/webproxy/carrier.go:300-321 | takes the read step; the bytes returned are exactly those added to the bytes delivered, at most as many as asked for, and at least one |
| Carrier.Carrier.Close | internal/webproxy/carrier.go:391-402 | takes the close step |
| Relay.WriteKeeps | internal/webproxy/carrier.go:272-295 | writing keeps safety, fidelity and credit |
| Relay.PumpKeeps | internal/webproxy/carrier.go:323-357 | so does any answer of the transport, malformed or final ones included |
| Relay.DeliverKeeps | internal/webproxy/carrier.go:313-319 | so does handing bytes to the caller |
| Relay.CloseKeeps | internal/webproxy/carrier.go:391-402 | so does closing |
| Relay.RunSafe | internal/webproxy/carrier.go:272-402 | on every run: at most one OPEN and CLOSE, data after the OPEN, nothing after the CLOSE; delivered plus buffered bytes are the stream's data in order; every ping is answered; payloads sent are the bytes accepted |
| Relay.CreditConserved | internal/webproxy/carrier.go:313-377 | on every run the debt stays below 256 KiB, and with bodies up to 8 MiB grants, dropped credit and debt add up to the bytes delivered |
| Relay.LogParses | internal/webproxy/carrier.go:272-402 | everything handed to the transport decodes to the frames of the run |
| Relay.NothingAfterClose | internal/webproxy/carrier.go:272-402 | whatever is called after the close, nothing more is handed to the transport, asked of it or accepted |
| RelayRuns.ReadEnds | internal/webproxy/carrier.go:300-321 | every read, exactly: it polls on while there is nothing to hand out, and then hands out the front of the buffer, or reports the end, the close, or the failure of that exchange |
| RelayRuns.ReadReturns | internal/webproxy/carrier.go:300-321 | the bytes a read returns are the bytes delivered; a failed read delivers none |
| RelayRuns.PumpExactly | internal/webproxy/carrier.go:323-357 | an exchange takes in the body that arrived and fails exactly without one, on a malformed one, or on a BYE |
| RelayRuns.PolledTakes | internal/webproxy/carrier.go:300-357 | the exchanges of a read take in everything that arrives meanwhile |
| RelayRuns.RunDelivers | internal/webproxy/carrier.go:272-357 | on every run what all reads returned, followed by the buffer, are the stream's DATA payloads in order; and the payloads sent are what the writes before the close were given |
| RelayRuns.RunShaped | internal/webproxy/carrier.go:272-402 | everything ever sent has the stream, the size and the payload its kind calls for |
| RelayRuns.RunCloses | internal/webproxy/carrier.go:391-402 | a carrier that was opened and closed has sent the CLOSE last |
| RelayRuns.GrantsExactly | internal/webproxy/carrier.go:313-377 | a write passes on all credit owed, and reading grants exactly when 256 KiB are owed |
| WebSocket.Socket.WriteMessage | internal/webproxy/websocket.go:168-195 | one masked final frame in the shortest length form is sent, or the failure reported |
| WebSocket.Socket.ReadFrame | internal/webproxy/websocket.go:197-243 | the three length forms, the size limit and the unmasking in place |
| WebSocket.Socket.ReceiveMessage | internal/webproxy/websocket.go:123-152 | the receive loop equals its specification on unread bytes, pongs sent and result |
| WebSocket.Socket.Send | internal/webproxy/websocket.go:115-121 | nothing for an empty body, else one binary message |
| WebSocket.WireReads | internal/webproxy/websocket.go:168-243 | every frame up to 8 MiB in any length form and mask is read back; a longer one is refused |
| WebSocket.ReadsExactly | internal/webproxy/websocket.go:197-243 | reading accepts exactly the wire forms of frames up to 8 MiB |
| WebSocket.MessageReceived | internal/webproxy/websocket.go:123-152 | a message in any fragmentation between pings and pongs comes out joined; every ping is answered with its payload in order |
| WebSocket.MessageCutOff | internal/webproxy/websocket.go:123-152 | a close is an end and a text frame an error, wherever they come |
| WebSocket.MessageBroken | internal/webproxy/websocket.go:123-152 | what cannot be read in the middle of a message is reported as it is, after the pongs due |
| WebSocket.PongFails | internal/webproxy/websocket.go:135-139 | a pong that cannot be written ends the message |
| WebSocket.CutShort | internal/webproxy/websocket.go:197-201 | the end of the input is clean between frames and unexpected within one |
| WebSocket.MaskBlocks | internal/webproxy/websocket.go:186-189 | the mask repeats every four bytes |
| WebSocket.BodyCarried | internal/webproxy/websocket.go:115-152 | a body of relay frames sent as a message is received as the same frames |
| WorkerPool.RunKeeps | internal/checker/checker.go:112-144 | in every interleaving no two workers hold one index, none is lost, and each slot is written at most once |
| WorkerPool.ReturnsResults | internal/checker/checker.go:112-144 | at return exactly a prefix of the inputs was checked, each written and reported once with its own result; the rest is zero, and there is a rest only after a cancel |
| WorkerPool.StuckExactly | internal/checker/checker.go:112-144 | no step is possible exactly after the return, or without workers while inputs wait uncancelled |
| WorkerPool.RunNeverDeadlocks | internal/checker/checker.go:53-144 | after the defaults only the returned state is stuck |
| WorkerPool.RunsAreBounded | internal/checker/checker.go:112-144 | no run exceeds three steps an input, one a worker and three more; an uncancelled one has exactly that less one |
| WorkerPool.CanReturn | internal/checker/checker.go:112-144 | from every reachable state the run can be completed |
| WorkerPool.DefaultsExactly | internal/checker/checker.go:53-73 | the defaults are sensible, and sensible options are kept |
| WorkerPool.Summarize | internal/checker/checker.go:383-396 | the three counts, which add up to the total |
| WorkerPool.CancelledCountInvalid | internal/checker/checker.go:112-396 | inputs never handed out are counted as invalid |

## Left out
- Sockets, HTTP requests, TLS and SOCKS dialling, DNS, deadlines and contexts: byte sources and sinks that may fail; a deadline that passes is one way for a reply to be lost.
- Transport.DecodeIntermediate, Transport.DecodeAbridged, Transport.DecodePadded: that a source ends early is one error, whether or not a packet had begun; io.EOF and io.ErrUnexpectedEOF are not told apart.
- Failures of the random source, except in the obfuscation header's loop.
- The internals of AES, SHA, HMAC, RSA, gzip and the primality test: arbitrary functions with the laws named above.
- Dispatch.Walk: compressed parts are followed to an explicit depth, since the code states no bound; `Dispatch.DepthSuffices` shows that the depth is irrelevant once it is not reached.
- AuthKey.CreateAuthKey: the cache of checked primes is an input; that a passed check adds to it is not modelled.
- Factorize.Brent: the PCG generator's two words are inputs, so nothing is said about how likely an attempt succeeds.
- ClientHello.EncodeSNI: works on the trimmed, lower-cased name; the Unicode tables behind trimming and lowering are not part of this model.
- ClientHello.BuildClientHello: the key share is any 32 bytes; that it is a square modulo 2^255 - 19 is not used.
- ServerHello.VerifyServerHello: the length guard before the digest is not repeated, because the checks before it already imply it.
- Carrier.Carrier.Read: when the transport has no further answer, reading fails; waiting for it forever is not modelled.
- WorkerPool.ReturnsResults: what one check yields is an arbitrary relation between input and result; the retry loop inside a check is not modelled.
- Pings, download measurement, configuration parsing and audit checks, which reuse the session and the readers proved here.
- Command line, reports, links, filters, scores, grades and geography.
