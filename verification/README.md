# Burnout Paradise server: a verified model

A Dafny model of the hard core of the local Burnout Paradise server, with proofs of what its protocols
promise. It has two halves that meet at the byte stream.

**Legacy TLS.** `legacytls/conn.go` speaks a small part of TLS 1.0 (RFC 2246) and SSL 3.0 (RFC 6101) with two
RC4 suites. `KeyDerivation`, `HandshakeMessages` and `RecordLayer` give its derivations, parsers and records as
functions and prove the source's loops equal to them. `Standard` has what a peer takes from the two standards, in
definitions apart from the code's: key expansion byte by byte, the division of the key block, MACs, protected
records and Finished values; the server's functions are proved equal to them. `HandshakeProtocol` is the handshake
as a function of what the server reads, together with an honest client that takes its secrets, keys, MAC and
Finished values from `Standard` and everything else from the bytes it receives; the main result is that both ends
agree. `Channel` proves that the established link delivers every byte in order under every interleaving of writes,
record emissions and reads. `Connection` is the `Conn` object: its methods are proved equal to those functions, and
`History` is what they have read and written, record by record.
`Lifetime` joins it up: over any sequence of Handshake, Read and Write calls on any stream, everything the
application reads is what records protect under the write keys the standards give the client, each record under its
number and at its place in the keystream, and everything it writes is protected so under the server's; the keys come
from the client's own messages, after its Finished was verified. Failed handshakes, refused records and writes cut
off in the middle are included.

**EASO and the lobby.** `Easo` has the plain and the RC4+MD5 framing, `EasoSenders` the goroutines that share one
channel under a mutex. `Text`, `Decimal`, `GameRequest`, `GameRecord`, `Rerender` and `RoadRules` are the text
records: parser, printer, merger and the round trips between them. `LobbyModel` is the shared lobby as a state
machine over connects, requests and disconnects of any number of clients; `LobbySteps` says what each request does,
in terms of the roster, the names and the fields of the request; `LobbyRuns` proves what holds over all runs;
`Notices` proves what a recipient makes of its frames. `Lobby` has the mutable objects: every request
handler of `Server` is proved to be one step of the machine, so that every theorem about runs holds of the
server's fields (`Server.Valid`, `Server.LobbySound`).

## What the proofs say about the code

- The result barrier (`bpserver/lobby.go:239-242`) compares sizes. As long as nobody leaves after a start that is
  the intent written at `bpserver/handlers.go:447-450` (`BarrierHolds`). Reporters who leave stay counted, so the
  code does not do what that comment says: `CompletionExactly` and `BarrierFailsExactly` give the condition, and
  `DepartedReporterCounts` is a run in which a race completes although a player has not reported.
- The server prints a game record and prints it again from the printed one for each recipient
  (`bpserver/lobby.go:294`, `bpserver/lobby.go:320`). `RerenderExactly` gives the exact condition under which the
  second print is faithful. Cutting a NAME to 35 characters can break it (`TruncationUnsettles`).
- A merge reads the stored values again, and reading twice is not reading once (`ReadingTwice`): the latest writer
  wins up to one reading per later merge (`MergeAllLastWriter`), and verbatim exactly on stable values
  (`MergeAllStable`). A quoted NAME with a space inside the quotes is one that loses it (`QuotedSpaceLost`).
- The server takes both forms of ClientKeyExchange. A bare one is misread when the ciphertext happens to start with
  its own remaining length: then an honest client is refused, unless the shortened ciphertext decrypts as well
  (`KeyExchangeExactly`, `MisreadIsRefused`). `BareClientRefused` builds such a client.
- A server flight is written in one record of any length. A peer that goes by the announced length gets it when it is
  shorter than 65536 bytes (`FlightTaken`); one that reads with this record layer only up to 18432 (`FlightRead`).

## Model

| member | source | states |
|---|---|---|
| `Bytes.BigEndian` | legacytls/conn.go:454-502 | 16, 24, 32 and 64-bit fields have their most significant byte first |
| `Bytes.XorIsBitwise` | legacytls/conn.go:629-631 | a bit of the XOR is set exactly when the two bits differ |
| `KeyDerivation.PHashLoop` | legacytls/conn.go:637-656 | the loop yields the first n bytes of P_hash as section 5 of RFC 2246 defines it recursively |
| `KeyDerivation.PHashPrefix` | legacytls/conn.go:637-656 | a shorter P_hash output is a prefix of a longer one |
| `KeyDerivation.SecretHalves` | legacytls/conn.go:625-627 | the two halves cover the secret and share exactly the middle byte when its length is odd |
| `KeyDerivation.PrfInPlace` | legacytls/conn.go:622-635 | the in-place combination is the XOR of P_MD5 over the first half and P_SHA-1 over the second |
| `KeyDerivation.PrfPrefix` | legacytls/conn.go:622-635 | a shorter PRF output is a prefix of a longer one |
| `KeyDerivation.Ssl3GenerateLoop` | legacytls/conn.go:559-579 | the loop yields the expansion of section 6.2.2 of RFC 6101, salts A, BB, CCC and so on with a wrapping letter |
| `KeyDerivation.Ssl3Prefix` | legacytls/conn.go:559-579 | a shorter expansion is a prefix of a longer one |
| `KeyDerivation.SecretsAreStandard` | legacytls/conn.go:530-548 | master secret and key block are, byte for byte, the ones of RFC 2246 and RFC 6101: labels, order of the randoms, halves and salts |
| `KeyDerivation.FinishedIsStandard` | legacytls/conn.go:581-620 | so are the Finished values of both senders: labels or sender constants, hashes, pads and their order |
| `HandshakeMessages.SplitLoop` | legacytls/conn.go:504-526 | the loop over a shrinking slice computes the recursive decomposition, error cases included |
| `HandshakeMessages.SplitOfMessages` | legacytls/conn.go:504-526 | splitting a concatenation of messages gives those messages |
| `HandshakeMessages.SplitIsTwoSided` | legacytls/conn.go:504-526 | splitting fails exactly when the bytes are no concatenation of messages, and the decomposition is unique |
| `HandshakeMessages.SplitInvertsMessages` | legacytls/conn.go:491-526 | messages with bodies below 2^24 come back as they were framed |
| `HandshakeMessages.HandshakeMessage` | legacytls/conn.go:491-502 | the buffer filled in place is type, 24-bit length and body |
| `HandshakeMessages.ChooseSuite` | legacytls/conn.go:177-188 | the scan picks RC4-SHA if it stands at any even offset, otherwise RC4-MD5 if that does, otherwise nothing |
| `HandshakeMessages.ChoiceExactly` | legacytls/conn.go:177-188 | in bytes: suite 0,5 if it stands at an even offset, else 0,4 if that does, else none |
| `HandshakeMessages.ParseHelloMessage` | legacytls/conn.go:142-150 | exactly one ClientHello message of at least 39 bytes is accepted |
| `HandshakeMessages.ParseHelloChoice` | legacytls/conn.go:160-188 | session id and suite list are skipped with every index checked; the result is the choice or the reason of refusal |
| `HandshakeMessages.HelloAccepted` | legacytls/conn.go:142-192 | every well-formed ClientHello that offers a common suite is accepted with its own version, random and choice |
| `HandshakeMessages.HelloOnlyWellFormed` | legacytls/conn.go:142-192 | an accepted payload is one well-formed ClientHello, and version, random and suite are its own |
| `HandshakeMessages.HelloRefusals` | legacytls/conn.go:142-188 | each reason of refusal exactly, in bytes of the payload |
| `HandshakeMessages.FillCertificateBody` | legacytls/conn.go:221-237 | the buffer sized by one loop and filled by another is the certificate list with all its lengths |
| `HandshakeMessages.FlightSplits` | legacytls/conn.go:213-244 | the flight splits into a ServerHello with the server's version, random and suite, an empty session id and no compression, a Certificate message from whose lengths a client reads the certificates in order, and an empty ServerHelloDone |
| `HandshakeMessages.PrefixedPayload` | legacytls/conn.go:267-270 | a length-prefixed encrypted premaster is recovered |
| `RecordLayer.OpenExactly` | legacytls/conn.go:380-398 | a body opens to a plaintext if and only if it is that plaintext sealed in the same state with the same type; otherwise it is refused, for its MAC if it is long enough to have one |
| `RecordLayer.OpenSealed` | legacytls/conn.go:380-452 | opening what was sealed moves both states alike |
| `RecordLayer.SealIsStandard` | legacytls/conn.go:438-489 | a sealed record is the protected record of the standards: what the MAC covers and in which order, pads, number, and the place in the keystream |
| `RecordLayer.MacCoversRecord` | legacytls/conn.go:479-488 | the TLS 1.0 MAC is over the number and the very record that would be sent in the clear |
| `RecordLayer.ReadOwnRecord` | legacytls/conn.go:355-452 | a record written under the reader's cipher is read back, whatever follows it on the stream |
| `RecordLayer.ReadExactly` | legacytls/conn.go:355-412 | the reader returns a plaintext if and only if the stream begins with a record of acceptable version and at most 18432 bytes that seals it |
| `RecordLayer.RefusedExactly` | legacytls/conn.go:355-398 | each of the five reasons of refusal exactly, and when the first record is over |
| `RecordLayer.FragmentsCover` | legacytls/conn.go:104-121 | fragmentation loses and reorders nothing; every fragment but the last has 16384 bytes, the last one at least one |
| `RecordLayer.SealAllAppend` | legacytls/conn.go:438-452 | sealing one more record continues the stream where the previous ones left it |
| `HandshakeProtocol.CiphersAreStandard` | legacytls/conn.go:287-340 | both ends' ciphers start with the write keys of the standards' division of the key block, client before server, at number and offset zero |
| `HandshakeProtocol.PhasesNeed` | legacytls/conn.go:135-330 | each phase goes on only with the one record it waits for: ChangeCipherSpec exactly with its one byte, Finished exactly with the standards' value |
| `HandshakeProtocol.VersionTaken` | legacytls/conn.go:142-192 | a supported version becomes the connection's even when the suites are refused after it |
| `HandshakeProtocol.FlightTaken` | legacytls/conn.go:414-417 | a peer that takes as many bytes as the header announces recovers the flight exactly when it is shorter than 65536 bytes |
| `HandshakeProtocol.FlightRead` | legacytls/conn.go:355-417 | a peer that reads with this record layer, as the client of legacytls/conn_test.go:74 does, recovers it exactly when it has at most 18432 bytes |
| `HandshakeProtocol.KeyExchangeExactly` | legacytls/conn.go:251-275 | an honest client's premaster arrives if and only if its key exchange is prefixed, does not announce its own remaining length, or decrypts to the same when cut; otherwise the outcome is a decryption failure exactly when the cut ciphertext has no 48-byte plaintext |
| `HandshakeProtocol.MisreadIsRefused` | legacytls/conn.go:264-275 | the whole handshake of such a client stops there |
| `HandshakeProtocol.BareClientRefused` | legacytls/conn.go:267-275 | for every acceptable ClientHello there is an honest client with a bare 256-byte ciphertext that is refused |
| `HandshakeProtocol.HandshakeAgreement` | legacytls/conn.go:125-348 | against every honest client that is understood, of either version and suite, with a prefixed or bare key exchange, and deriving everything from the standards' definitions, both sides accept each other's Finished, and key, MAC key, stream offset and sequence number 1 agree in both directions; a client with this record layer reads the flight exactly when it has at most 18432 bytes |
| `Channel.ReadDecides` | legacytls/conn.go:58-92 | of what the peer has sealed, empty application records are skipped and the next record decides: data as far as asked for and the rest kept, end of stream for close_notify, an error for any other alert or type |
| `Channel.WriteIsEmissions` | legacytls/conn.go:94-123 | a Write is its records, one after the other |
| `Channel.WriteResumes` | legacytls/conn.go:104-121 | cut behind a whole fragment, a Write is its first part followed by one more iteration |
| `Channel.RunSound` | legacytls/conn.go:58-123 | over every run both directions stay synchronised, counted and accounted for |
| `Channel.RecordLayerTransparency` | legacytls/conn.go:58-123 | after agreement, under every interleaving of writes, emissions and reads of any size, what was read is a prefix of what was written, all of it once drained, sequence numbers count records and no read fails |
| `Channel.Drains` | legacytls/conn.go:58-123 | from every reachable state some further emissions and reads deliver everything that was accepted |
| `Channel.WritesArrive` | legacytls/conn.go:58-123 | two more writes, one on each side, then arrive whole |
| `Channel.HonestSession` | legacytls/conn.go:42-123 | the two results joined: from the first byte of any honest client that is understood to the last byte read |
| `History.ListenCounts` | legacytls/conn.go:380-398 | the reading keys stay, the sequence number counts the accepted records only, and the keystream has moved over refused records too |
| `History.OpeningsGenuine` | legacytls/conn.go:380-398 | every record accepted is the standards' protected record of what it opened to, under the number of accepted records before it and at the offset of all bytes before it; one refused protects nothing there |
| `History.KeystreamNeverReused` | legacytls/conn.go:438-452 | no two records written share keystream and each has its own number, also after a record that was cut off |
| `History.UtteredIsStandard` | legacytls/conn.go:438-452 | the bytes written are the standards' protected records of the plaintexts, numbered in order, as far as the stream took them |
| `History.LoggedHeard` | legacytls/conn.go:355-412 | every byte consumed belongs to a logged record or a refused header, and the input cipher is what those records make of the negotiated one |
| `History.SealedSent` | legacytls/conn.go:438-452 | every byte sent belongs to a logged record sealed in the state the ones before it left; the output cipher moves on even if the stream took only a part |
| `History.OrderedFragment` | legacytls/conn.go:94-123 | application data comes after the complete server Finished, in fragments of 1 to 16384 bytes |
| `Lifetime.Live` | legacytls/conn.go:42-123 | over every sequence of calls: what was returned is a prefix of what the records read protect under the client's write keys, what was handed over is what the records written protect under the server's, keys, numbers, offsets and Finished values being the standards' for a session derived from the client's messages; without that, nothing was returned, handed over or sent but handshake records |
| `Lifetime.Meet` | legacytls/conn.go:42-45 | the connection object is established with every honest client that is understood, unless a write fails, and both ends then hold the same ciphers |
| `Lifetime.ServeAll` | legacytls/conn.go:42-123 | the bytes all Reads returned and all Writes handed over are the delivered and the sealed ones, in order |
| `Connection.Conn.ReadRecord` | legacytls/conn.go:355-412 | the record reader, branch by branch, on every stream; what it returns was sealed in the state that met the record, a whole record that seals nothing there is refused, and every byte taken is accounted for |
| `Connection.Conn.Decrypt` | legacytls/conn.go:380-398 | the result is what the body protects by the standards under the cipher's number and offset, and a refusal if it protects nothing; keystream moves in any case, the sequence number only with a good MAC |
| `Connection.Conn.WriteRawRecord` | legacytls/conn.go:414-436 | partial writes are continued; what reached the stream is a prefix of the record, all of it on success |
| `Connection.Conn.WriteRecord` | legacytls/conn.go:438-452 | MAC, encryption and counters as one record sealed under the current state |
| `Connection.Conn.ReadHello` | legacytls/conn.go:135-192 | the ClientHello phase; what it accepts is the first record read |
| `Connection.Conn.TakeHello` | legacytls/conn.go:142-192 | version, random and suite of a payload, the version being set before the suites are looked at |
| `Connection.Conn.ReadKeyExchange` | legacytls/conn.go:251-277 | the ClientKeyExchange phase |
| `Connection.Conn.ReadChangeCipherSpec` | legacytls/conn.go:293-303 | the input cipher is installed only after a well-formed ChangeCipherSpec |
| `Connection.Conn.ReadFinished` | legacytls/conn.go:305-330 | the first record under the client cipher is its Finished, compared with the value computed over the transcript |
| `Connection.Conn.SendFlight` | legacytls/conn.go:213-246 | the flight sent is ServerHello, Certificate and ServerHelloDone in one record |
| `Connection.Conn.SendFinished` | legacytls/conn.go:332-342 | only after a verified client Finished: ChangeCipherSpec, then the server Finished as the first record under the server cipher |
| `Connection.Conn.RunHandshake` | legacytls/conn.go:125-348 | the method is the handshake function on every stream whose writes do not fail; after a failed write it stops with what had been read up to there; the order of records holds in any case |
| `Connection.Conn.Handshake` | legacytls/conn.go:42-45 | runs at most once and repeats its first result; the history only grows |
| `Connection.Conn.Read` | legacytls/conn.go:58-92 | lazy handshake, then exactly the read function; an established connection stays established with its session, and only records read are added |
| `Connection.Conn.Write` | legacytls/conn.go:94-123 | lazy handshake, then exactly the write function; an established connection stays established with its session, also when the stream fails, and what was given to the cipher is the data, or the complete fragments counted and the one cut off |
| `Stream.NetConn.WriteAll` | easo/secure_easo.go:86-98 | partial writes are continued; an error or a write of nothing ends the attempt with a prefix written |
| `Easo.Read` | easo/frame.go:27-53 | the plain reader consumes one frame or reports why not |
| `Easo.Write` | easo/frame.go:55-88 | the plain writer refuses by type and size without writing, and otherwise writes the packet or a prefix of it |
| `Easo.Acceptable` | easo/frame.go:35-63 | the writers accept exactly the frames a reader can return: a four-byte type and at most 1048576 bytes in all |
| `Easo.PlainRefusals` | easo/frame.go:27-46 | each reason of refusal exactly, and what is consumed |
| `Easo.PlainRoundTrip` | easo/frame.go:27-88 | an acceptable frame is read back, whatever follows it |
| `Easo.PlainReadBack` | easo/frame.go:27-88 | whatever the reader accepts is the packet of an acceptable frame |
| `Easo.SecureRoundTrip` | easo/secure_easo.go:36-84 | the secure reader at the same stream offset recovers the frame and moves the offset by its length |
| `Easo.SecureReadBack` | easo/secure_easo.go:36-84 | whatever the secure reader accepts is the sealed packet of an acceptable frame at that offset |
| `Easo.SecureRefusals` | easo/secure_easo.go:36-58 | each reason of refusal exactly: a complete packet is refused if and only if it is no frame's packet at that offset |
| `Easo.SecureLayout` | easo/secure_easo.go:66-84 | a packet before encryption: type, identifier, length counting eight more, payload, and the first eight bytes of the digest of all that |
| `Easo.SecureEASO.Read` | easo/secure_easo.go:36-64 | header and body are decrypted in two pieces of one continuous stream, length checked between them |
| `Easo.SecureEASO.Write` | easo/secure_easo.go:66-84 | a refused frame leaves stream and cipher offset alone; an accepted one is sealed at the current offset |
| `EasoSenders.RunKeepsInv` | bpserver/handlers.go:31-38 | over every interleaving at most one sender is in the critical section and the wire is whole packets and one prefix |
| `EasoSenders.LockedAsAsked` | bpserver/handlers.go:31-38 | over every interleaving the frames locked by a sender are those it asked to write, in its order, all but the one it waits with |
| `EasoSenders.WriteAlone` | bpserver/handlers.go:31-38 | a sender that finds the mutex free gets its frame out as one packet, or leaves no trace if it is refused, and frees the mutex |
| `EasoSenders.PartialPacket` | easo/secure_easo.go:36-64 | a packet cut anywhere is not decoded and does not desynchronise |
| `EasoSenders.ReadAllFrames` | easo/secure_easo.go:36-64 | a peer decodes consecutive packets as the frames in order |
| `EasoSenders.PeerReadsLockOrder` | bpserver/handlers.go:31-38 | for every interleaving of any number of senders the peer decodes exactly the acceptable frames in lock order, every digest matching |
| `Text.PartsSplit` | bpserver/helpers.go:172-174 | newline and tab separate, nothing else does, and empty runs vanish |
| `Text.LookupFirst` | bpserver/helpers.go:174-181 | the first part that is the wanted field decides, and none means absent |
| `Text.FoldsAscii` | bpserver/helpers.go:178 | against an ASCII character case is ignored and nothing else, but for the Kelvin sign and the long s |
| `Text.TrimUnique` | bpserver/helpers.go:176-179 | trimming is the unique core of a text that has no such characters at its ends |
| `Text.StableReads` | bpserver/helpers.go:176-179 | a value reads as itself exactly when it has no white space or quotes at its ends |
| `Text.ReadingTwice` | bpserver/helpers.go:176-179 | reading a read value again changes nothing exactly when no white space was inside the quotes' ends |
| `Text.GetPayloadFieldValue` | bpserver/helpers.go:170-186 | the loop finds the first part whose key matches without regard to case, and its trimmed value |
| `Text.PayloadPartsOf` | bpserver/helpers.go:170-174 | a printed payload parses into exactly its lines |
| `Text.PrintedReads` | bpserver/helpers.go:170-203 | every key of a printed payload with distinct keys reads back as one reading of its value |
| `Text.PrintedAbsent` | bpserver/helpers.go:170-203 | and no other key reads as anything |
| `Text.FieldUnseparated` | bpserver/helpers.go:170-203 | a value the parser returns contains no separator |
| `Decimal.ParsePrint` | bpserver/helpers.go:41 | parsing a printed integer gives it back |
| `Decimal.PrintInjective` | bpserver/record.go:183-188 | different indices print differently |
| `Decimal.PrintCanonical` | bpserver/record.go:183-188 | no leading zeros, and a sign only for negative numbers |
| `Decimal.SignsAndWidths` | bpserver/helpers.go:41 | a plus sign is allowed, digits are needed, and a number must fit 32 or 64 bits |
| `Decimal.DecimalFieldExactly` | bpserver/helpers.go:35-47 | a 32-bit numeral is kept as written, anything else replaced |
| `Decimal.DecimalFieldProper` | bpserver/helpers.go:35-47 | a numeric field is a 32-bit numeral that survives printing and another pass |
| `GameRequest.MergeLocalGameRequest` | bpserver/lobby.go:53-77 | the loop builds the ten lines from the update's values and the base's |
| `GameRequest.MergeParts` | bpserver/lobby.go:53-77 | the stored request is the ten keys once each, in order |
| `GameRequest.MergeReads` | bpserver/lobby.go:53-77 | each key reads as one more reading of the update's value, or of the base's |
| `GameRequest.MergedKey` | bpserver/lobby.go:53-77 | the ten keys by name read as the update's value or the base's, read once more; no other key is there |
| `GameRequest.MergeAllUntouched` | bpserver/lobby.go:176-178 | a key no update names keeps the creation value, read once more per merge |
| `GameRequest.MergeAllLastWriter` | bpserver/lobby.go:176-178 | over any run of updates the latest one naming a key decides, read once more per later merge |
| `GameRequest.MergeAllStable` | bpserver/lobby.go:176-178 | the latest value is kept verbatim exactly when it is stable under reading |
| `GameRequest.QuotedSpaceLost` | bpserver/helpers.go:178-180 | an update whose quoted NAME begins with a space loses the space in the merge |
| `GameRequest.LimitExactly` | bpserver/lobby.go:112-115 | MAXSIZE is the limit if it is a positive 64-bit number, otherwise nine |
| `GameRequest.FlagsExactly` | bpserver/lobby.go:195 | SYSFLAGS as a 32-bit number, zero when it is none |
| `GameRequest.FlagBits` | bpserver/lobby.go:196-244 | setting and clearing change the bit of value 0x80000 and no other, for any 32-bit value |
| `GameRequest.FlagsArrive` | bpserver/lobby.go:195-198 | printed, merged and parsed again the flags are unchanged, and every other key is only read once more |
| `GameRequest.StartedRoundTrip` | bpserver/lobby.go:186-251 | start sets bit 0x80000 and keeps every other bit, is idempotent, and finishing clears just that bit |
| `GameRecord.CleanFieldProper` | bpserver/helpers.go:11-33 | a cleaned field is printable ASCII within its limit and is not changed by cleaning again |
| `GameRecord.CleanTextMeaning` | bpserver/helpers.go:13-21 | character by character: NUL, return, newline and tab vanish, printable ASCII stays, everything else becomes a question mark |
| `GameRecord.CleanFieldMeaning` | bpserver/helpers.go:23-31 | the cleaned text or the fallback, cut at the end if it is too long |
| `GameRecord.GetLocalAccountName` | bpserver/helpers.go:234-256 | the loop keeps the first nineteen permitted characters, or the standard name |
| `GameRecord.AccountNameExactly` | bpserver/helpers.go:234-256 | characters that are not permitted leave no trace; of the others the first nineteen stay |
| `GameRecord.AccountNameSurvives` | bpserver/helpers.go:234-256 | an account name passes unchanged through cleaning, printing and parsing |
| `GameRecord.GetLocalMultiplayerGameRecord` | bpserver/record.go:132-197 | the builder writes header, one block per player and trailer; an empty roster is the host alone |
| `GameRecord.KeyAllDistinct` | bpserver/record.go:155-192 | all keys of a record are different, OPPO1 and OPPO10 included |
| `GameRecord.RecordParses` | bpserver/record.go:132-197 | for any text and any number of players the record parses into its lines in order, and each key reads back as one reading of its printed value |
| `GameRecord.RecordAnnounces` | bpserver/record.go:134-171 | every header field by name, from the request, the host and the number of players, with its limit or default |
| `GameRecord.RecordHasConstants` | bpserver/record.go:155-165 | and those that are the same in every record |
| `GameRecord.RecordLists` | bpserver/record.go:167-190 | every field of every player's block by name: identity, name, addresses, port marker, parameters and flags |
| `GameRecord.HostAlone` | bpserver/record.go:144-146 | an empty roster prints as the host alone |
| `GameRecord.RecordCounts` | bpserver/record.go:144-192 | COUNT, PARTSIZE0 and the number of player blocks are the size of the roster |
| `Rerender.RerenderExactly` | bpserver/lobby.go:319-320 | printing from a printed record, for any other roster, is printing from the request exactly when cleaned NAME and PARAMS are stable (or NAME reads as nothing and is the persona) |
| `Rerender.TruncationUnsettles` | bpserver/helpers.go:27-29 | a stable NAME whose 35th character is a space breaks that condition |
| `RoadRules.SplitJoin` | bpserver/record.go:71-73 | splitting a joined list gives its elements |
| `RoadRules.UploadRead` | bpserver/record.go:71-73 | a client's upload is read back: ranks from R, values from V, cars from C |
| `RoadRules.AcceptedExactly` | bpserver/record.go:74-103 | accepted are exactly the entries in all three lists with a rank of 0 to 127, a 64-bit value and a car that is not blank |
| `RoadRules.GetLocalRoadRuleUploadRecord` | bpserver/record.go:69-115 | the filter loop with its seen map lists the first occurrence of each accepted rank |
| `RoadRules.ValidMembers` | bpserver/record.go:87-111 | VALID has exactly the accepted ranks, without repeats |
| `RoadRules.ValidInOrder` | bpserver/record.go:87-111 | in the order of their first occurrences |
| `RoadRules.ValidFitsMask` | bpserver/record.go:90-94 | at most 128 entries, all in 0..127 |
| `RoadRules.ResubmissionIsStable` | bpserver/record.go:69-115 | submitting VALID again with good values and cars gives the same VALID |
| `LobbyModel.NextKeepsInv` | bpserver/lobby.go:79-421 | every request and disconnect keeps host first, no duplicates, members connected |
| `LobbyModel.RunKeepsInv` | bpserver/lobby.go:79-421 | so does every run |
| `LobbySteps.RosterEffects` | bpserver/lobby.go:79-421 | connecting, logging in, creating, joining and leaving: who is in the roster, in which order, under which limit, with which parameters; only the host's leaving ends the lobby |
| `LobbySteps.StartEffect` | bpserver/lobby.go:186-205 | the host's start sets the flag, forgets the reports and changes nothing else; the other nine fields are only read once more |
| `LobbySteps.ReportEffect` | bpserver/lobby.go:207-251 | a report that does not suffice is only noted; one that does clears the flag besides, leaving the other nine fields, roster and host; any other changes nothing |
| `LobbySteps.KickIndexExactly` | bpserver/lobby.go:262-271 | the search finds the first guest of that name, and nobody exactly if no guest has it |
| `LobbySteps.KickEffect` | bpserver/lobby.go:253-283 | a kick by the host takes that guest out and nobody else; without such a guest, or from anybody else, it changes nothing |
| `LobbySteps.FirstNamedExactly` | bpserver/lobby.go:149-156 | the search finds the first player of a name, and nobody exactly if no player has it |
| `LobbySteps.UpdateEffect` | bpserver/lobby.go:129-184 | an update changes the parameters of the one player it is about, by PERS, to what it carries, and the request only if the host sends it |
| `LobbySteps.Gone` | bpserver/handlers.go:75-85 | a client that has gone does nothing |
| `LobbyRuns.NextReports` | bpserver/lobby.go:199-245 | the report set changes only by a start, a creation and a counting report |
| `LobbyRuns.RunBooked` | bpserver/lobby.go:186-283 | over every run it is exactly the clients who reported since the race began, departed ones included |
| `LobbyRuns.CompletionExactly` | bpserver/lobby.go:239-242 | a race completes exactly when the players without a report are no more than the reporters who have gone |
| `LobbyRuns.BarrierHolds` | bpserver/handlers.go:447-450 | if nobody has left since the start, it completes exactly when every current player has reported |
| `LobbyRuns.BarrierFailsExactly` | bpserver/handlers.go:447-450 | it completes too early exactly when somebody is missing and at least as many reporters have gone |
| `LobbyRuns.WaitsForGuests` | bpserver/lobby.go:207-242 | while nobody of a host and two guests has left, the host's report alone completes nothing |
| `LobbyRuns.DepartedReporterCounts` | bpserver/lobby.go:387-421 | a concrete run that does so: a guest reports and leaves, the host reports, the other guest never does |
| `LobbyRuns.RosterGrowth` | bpserver/lobby.go:112-122 | the roster grows only by a join, by one, up to the limit in force |
| `LobbyRuns.RosterWithinPeak` | bpserver/lobby.go:96-127 | over every run it never exceeds the largest limit in force since the creation |
| `LobbyRuns.UpdatesAreScoped` | bpserver/lobby.go:129-184 | an update by a guest changes no request and nobody else; one by the host changes at most one player's parameters |
| `Notices.GetLocalPlayerFirst` | bpserver/lobby.go:11-30 | the two loops put the recipient first and the others behind it |
| `Notices.GetLocalPlayerLast` | bpserver/lobby.go:32-51 | the two loops put the recipient last |
| `Notices.OthersWithout` | bpserver/lobby.go:22-26 | without duplicates the others are the roster without that one place, in order |
| `Notices.PresenceReads` | bpserver/helpers.go:155-168 | a presence record reads back as the identity it was printed for |
| `Notices.PresenceTells` | bpserver/helpers.go:155-168 | every field of it by name: no flags, the game, the address twice |
| `Notices.FramesShape` | bpserver/lobby.go:300-355 | the frames to a member: an optional +gam, one +usr per other player in order, exactly one +who about the recipient, then +mgm |
| `Notices.SelfStaysSelf` | bpserver/lobby.go:328-347 | after every frame a client whose record a +who replaces still has itself in it |
| `Notices.ReachedKeepsSelf` | bpserver/lobby.go:322-351 | also when any of the writes fail |
| `Notices.SesComesLast` | bpserver/lobby.go:377-381 | whichever writes fail, no +ses arrives without the +gam and the +mgm with the same record before it |
| `Notices.MgmComesLast` | bpserver/lobby.go:322-351 | whichever writes fail, +mgm is the last frame, once, and never without the +gam where that is included |
| `Notices.RecipientFirst` | bpserver/lobby.go:313-320 | the record sent lists the recipient at index 0, field by field, the others behind it in roster order, nobody else, the host unchanged and COUNT the size of the roster |
| `Notices.StartFramesSeat` | bpserver/lobby.go:371-381 | so do all three of +gam, +mgm and +ses at a start |
| `Notices.LobbyFramesSeat` | bpserver/lobby.go:319-351 | and the +gam and +mgm of every other notification |
| `Notices.FlagsShown` | bpserver/lobby.go:374-376 | the flags in a printed record are those of the request it was printed from |
| `Notices.SentAsStored` | bpserver/lobby.go:294-320 | the twice printed record is the stored request's exactly when the first print is settled |
| `Lobby.Server.CreateLocalLobby` | bpserver/lobby.go:79-94 | the new lobby, the host's address and the snapshot |
| `Lobby.Server.JoinLocalLobby` | bpserver/lobby.go:96-127 | member search and limit test as the machine's join, successful exactly when the client is then in the roster; the address is set for a newcomer only |
| `Lobby.Server.FindTarget` | bpserver/lobby.go:138-162 | the search loop finds whose parameters an update is about |
| `Lobby.Server.UpdateLocalLobby` | bpserver/lobby.go:129-184 | the whole server state after an update, parameters of every client included |
| `Lobby.Server.StartLocalLobby` | bpserver/lobby.go:186-205 | for the host only: the flag set, the other nine fields only read once more, the reports cleared |
| `Lobby.Server.RecordLocalLobbyResult` | bpserver/lobby.go:207-251 | the report, and whether it completes the race: then the flag is cleared and the other nine fields are only read once more, otherwise the request stays |
| `Lobby.Server.KickLocalLobbyPlayer` | bpserver/lobby.go:253-283 | the player returned is the first guest of that name and the roster is the old one without it; when the host asks and nobody is returned, no guest has that name |
| `Lobby.Server.NotifyClient` | bpserver/lobby.go:309-351 | what reaches one recipient: nothing after a failed +gam; a prefix of the presences and the +mgm after a failed presence |
| `Lobby.Server.NotifyLobby` | bpserver/lobby.go:300-355 | the same for every recipient |
| `Lobby.Server.NotifyLobbyStart` | bpserver/lobby.go:357-385 | a prefix of +gam, +mgm and +ses with the recipient's record (`Notices.StartFramesSeat`) reaches every recipient, all of it unless a write failed |
| `Lobby.Server.LobbySound` | bpserver/types.go:67-92 | between requests the fields satisfy the lobby invariant, the report set is the reporters' and the roster is within the peak limit |
| `Lobby.Server.KnownToItself` | bpserver/lobby.go:328-347 | between any two requests a client that has logged in, and to which no write has failed, has itself as its own record |
| `Lobby.Server.Accept` | bpserver/handlers.go:75-85 | a connection is a new client, one step of the machine |
| `Lobby.Server.PersonaIDFor` | bpserver/server.go:29-44 | one positive identity per persona, never shared and never changed |
| `Lobby.Server.HandlePers` | bpserver/handlers.go:252-285 | a login is one step, and the client is sent its own presence, outside any game; from then on it counts as logged in |
| `Lobby.Server.HandleGpsc` | bpserver/handlers.go:351-367 | a creation is one step, and the host is shown the lobby as it now stands, with presence and collection |
| `Lobby.Server.HandleGjoi` | bpserver/handlers.go:386-411 | a join is one step, and if the client is then in the roster every member is shown the lobby with presence, itself first and the flags as stored; otherwise nobody is told anything |
| `Lobby.Server.HandleRank` | bpserver/handlers.go:435-453 | a report is one step; if nobody has left, it completes the race exactly when all players have reported; then the flag is cleared, and every record sent shows its recipient first and the flags so cleared |
| `Lobby.Server.HandleGset` | bpserver/handlers.go:464-504 | kick or update is one step; kicked is the first guest of that name, who gets its +kik and is all that leaves the roster, every member is sent the new lobby with itself first, nobody else anything |
| `Lobby.Server.HandleGsta` | bpserver/handlers.go:521-540 | a start is one step, only when the host asks: the flag is set, and every record announced to a member lists it first and carries the flag |
| `Lobby.Server.RemoveClientFromLobby` | bpserver/lobby.go:387-421 | the deferred removal is one step; those who stay are shown the new roster exactly when the client was in it and the lobby remains |

## Left out

- MD5, SHA-1, HMAC, RSA and RC4 internals: functions of fixed output length, a partial decryption function and a keystream by key and position. An honest client is one whose encrypted premaster decrypts to its premaster and whose first two records keep to the reader's limit of 18432 bytes.
- Certificates, configuration files, listeners, sockets, contexts, tickers, logging and tracing.
- Branches of `handleConnection` with a fixed reply, and the ping acknowledgement.
- Rank lists (`getLocalRankListRecord`, `getLocalRankResultsRecord`), the log filter `getSafeFields`, `normalizeSpamPreference`, `getAcceptedClientAddress`: each is settled by reading one body. `getLocalGameRecord` is the multiplayer record for a single player.
- The server random and the time in it: a parameter of the connection, absent when the system cannot supply it.
- `Connection.Conn` is used by one caller at a time. That reads and writes may interleave between records is in `Channel`, where `writeMu` and `readMu` make a Write and a Read exclude others of their kind.
- The class `Easo.SecureEASO` is sequential for the same reason; the senders and the mutex are in `EasoSenders`, on a stream that does not fail.
- Acknowledgement frames written by a handler before its lobby step; if such a write fails the handler ends, which is the machine's disconnect.
- Handler assignments to its client's fields and the lobby call behind them are one step; the code makes the assignments outside the lock.
- The order of notifications of different snapshots: they are sent after the lock is released, and the code promises no order.
- A lobby without host, nil players and clients without a write function do not occur for service connections and are not modelled.
- Service connections only; the handler's private game record for other roles is left out.
- `net.ParseIP` is an arbitrary rule over strings of hexadecimal digits, dots and colons.
- Text is a sequence of Unicode code points; UTF-8 decoding is left out. Case folding is exact where one side is ASCII, and keys and stored personas are.
- Lists and buffers that Go splices in place are sequences here; snapshots are copied in the source as well, so no aliasing is visible.
- `strconv.Atoi` uses 64 bits.
