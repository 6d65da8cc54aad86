# A verified model of the login server

This project models the core of a Lineage II login server and proves what its parts promise: RSA decryption by the
Chinese remainder theorem, Blowfish and the packet crypt around it, the wire codec and the framing loops, the stores that
depend on the clock (rate limiter, session registry, handoff store, bans), the server list, and the login and handoff
protocol with all its interleavings. `dafny verify dfyconfig.toml` checks all of it.

Objects the server updates in place are classes here, loops are loops, buffers are arrays. Each such method is tied to a
function of the old state, and the promises are proved about those functions, over every input and every run.

| Modules | What they hold |
|---|---|
| `Words`, `Arithmetic`, `NumberTheory`, `Wrappers` | bytes, fixed-width words and bitwise operations; division; Fermat's little theorem by the binomial expansion, Euclid's lemma, uniqueness in the Chinese remainder theorem |
| `ScrambledKey`, `Blowfish`, `Crypts`, `SessionKeys` | the cryptographic arithmetic and the ciphers that work in place |
| `Wire`, `PacketWriters`, `PacketReaders`, `Framing`, `Pipeline` | the codec, the growing buffer, the cursor, the framing loops, and all of them end to end |
| `Sharding`, `RateLimiters`, `SessionRegistries`, `PlayerStatus`, `HandoffStore`, `BanManagers` | sharded maps as one flat map; stores with clocks, expiry and eviction, over whole runs |
| `ServerLists`, `ServerListPacket` | the game servers and the packet that lists them |
| `Credentials`, `Login`, `Handlers`, `Listeners`, `Connections`, `Protocol` | the credential blocks, the login worker, the packet handlers, opening and closing connections, who keeps an account occupied, and the handoff protocol as a step system |

## How to read the results

Time is a parameter of every operation that reads the clock, and in runs it never goes backwards. A section under a lock is
one atomic step. Random values, uninitialised bytes and packet bodies are arbitrary. The network words are the source's
widths exactly: wrap-around, truncation and two's complement are written out.

Seven statements one might expect are false of the code. For each the exact condition under which it holds is proved:

- Strings do not always survive the wire: exactly those without a NUL do (`Wire.StringRoundTrip`, `Wire.FieldsRoundTrip`).
- Round robin over the RSA keys is exact across counter wraparound if and only if the pool size divides 2^32
  (`ScrambledKey.RoundRobinExact`, `ScrambledKey.WraparoundRepeats`); the server uses 32 keys, which does.
- The framing loops can run out of range on received bytes: exactly when some frames that are handled are followed by one
  that announces less than its own header, or, from a game server, no opcode (`Framing.PanicExact`, `Framing.FaultySizes`;
  two zero bytes do it, `Framing.ZeroSizePanics`). Frames finished by `PrependLength` with an opcode never do
  (`Framing.DrainFrames`).
- A client's state does not only move forward: exactly another AuthGG after logging in and the commit of another worker
  after the server list set it back (`Protocol.StateLowered`), and both happen (`Protocol.SetBack`). Provenance holds
  nevertheless.
- `IsBanned` can report a ban that has run out: exactly when, between the two locks of a call, another caller drops the ban
  it saw and no failure bans the address again (`BanManagers.SplitAnswerExact`, `BanManagers.SplitAnswerCanBeWrong`).
- A closed connection does not always free its account. The steps that leave an account occupied with no open connection
  behind it are exactly: being dropped before `OnClose`, being closed between Register and the commit, a login registered
  after the connection is gone or under an empty name, a commit away from an account still held under another, and a game
  server without an id reporting a player whose connection is gone (`Connections.StepExact`,
  `Connections.OwnedThroughout`; `Connections.KickedEntryOutlives`, `Connections.ClosedBetweenOutlives`).
- The server list cannot always be read in its own layout: exactly when every address is IPv4
  (`ServerListPacket.ListReadExact`, `ServerListPacket.ListSize`).

Where the code and its comments disagree the model follows the code: `Encrypt` is said to add a checksum but after the
first packet adds none; `Extend` asks callers to overwrite the new bytes and `Encrypt` does not; the range operations of
the cipher are said to need a multiple of eight but accept any length and leave the odd bytes alone; only 127.0.0.1 is said
to be exempt from bans but every loopback address is.

## Model

| member | source | states |
|---|---|---|
| `ScrambledKey.RSADecrypt` | pkg/crypto/scrambled_key.go:81-109 | for every 128-byte ciphertext, even one at or above N, the short exponents, the one added p, the Euclidean remainder and Garner's step give exactly c^d mod N in 128 bytes; any other length is the size error (section 5.1.2 of RFC 8017) |
| `ScrambledKey.Recombined` | pkg/crypto/scrambled_key.go:94-102 | the recombined number is below p·q and has the two half results as remainders, whether or not one added p made h non-negative |
| `ScrambledKey.CrtIsPower` | pkg/crypto/scrambled_key.go:91-102 | a number below p·q with the two half powers as remainders is the full power: Fermat modulo each prime, then uniqueness modulo the product |
| `ScrambledKey.DecryptsEncrypted` | pkg/crypto/scrambled_key.go:81-109 | decryption inverts m^e mod N for every m below N, multiples of p and q included |
| `ScrambledKey.SmallKey` | pkg/crypto/scrambled_key.go:86-101 | the conditions on a key can be met: a toy key meets them all |
| `ScrambledKey.ToThenFrom` | pkg/crypto/scrambled_key.go:105-112 | FillBytes followed by SetBytes restores every number that fits |
| `ScrambledKey.FromThenTo` | pkg/crypto/scrambled_key.go:89-105 | SetBytes followed by FillBytes of the same length restores the bytes, leading zeros included |
| `ScrambledKey.MostSignificantFirst` | pkg/crypto/scrambled_key.go:89-112 | the byte order of SetBytes and FillBytes is most significant first |
| `ScrambledKey.FillAndScrambleModulus` | pkg/crypto/scrambled_key.go:111-133 | the loops in place produce `Scramble` of the big-endian modulus, which `ScrambledBytes` gives byte by byte |
| `ScrambledKey.ScrambledBytes` | pkg/crypto/scrambled_key.go:114-132 | every byte of the result in terms of the modulus bytes alone, the swapped bytes and those that pass 13 to 16 touches included |
| `ScrambledKey.ScrambleRoundTrip` | pkg/crypto/scrambled_key.go:114-132 | scrambling is a bijection on 128 bytes: replaying the passes last to first undoes it, and the other way round |
| `ScrambledKey.PeerRecoversModulus` | pkg/crypto/scrambled_key.go:111-133 | the peer recovers the modulus from the scrambled bytes, for every modulus of at most 1024 bits |
| `ScrambledKey.KeyPool.GetScrambledKey` | pkg/crypto/scrambled_key.go:70-78 | an empty pool is the error and moves nothing; otherwise the next key of the round robin is returned and every later pick moves up by one, through the wraparound of the counter |
| `ScrambledKey.RoundRobinExact` | pkg/crypto/scrambled_key.go:70-78 | any pool-size consecutive picks return each key exactly once, from every counter value, if and only if the pool size divides 2^32 |
| `ScrambledKey.WraparoundRepeats` | pkg/crypto/scrambled_key.go:76-77 | for every other pool size, a counter value from which the first key comes twice within one round |
| `Blowfish.RoundsWalkBack` | pkg/crypto/blowfish_cipher.go:148-170 | j rounds with reversed subkeys on an output stand where the input stood j rounds before the end, for any round function and subkeys |
| `Blowfish.BlockRoundTrip` | pkg/crypto/blowfish_cipher.go:124-170 | decryption inverts encryption and encryption inverts decryption of a block, for arbitrary subkeys and S-boxes |
| `Blowfish.BlowfishCipher.EncryptBlock` | pkg/crypto/blowfish_cipher.go:124-146 | the unrolled lines equal the recursive 16-round Feistel network |
| `Blowfish.BlowfishCipher.DecryptBlock` | pkg/crypto/blowfish_cipher.go:148-170 | the unrolled lines equal the same network with the subkeys reversed |
| `Blowfish.BlockChained` | pkg/crypto/blowfish_cipher.go:124-170 | enciphering and deciphering a block as one recurrence over the halves, each the one before the last masked with the round function of the last and its own subkey, in both orders of the subkeys |
| `Blowfish.BlowfishCipher.RoundF` | pkg/crypto/blowfish_cipher.go:172-179 | the round function on the stored S-boxes is the one the network is defined with |
| `Blowfish.RoundBytes` | pkg/crypto/blowfish_cipher.go:172-179 | which byte of the word selects from which box, and how the four entries are combined |
| `Blowfish.BlowfishCipher.CipherRange` | pkg/crypto/blowfish_cipher.go:34-50 | exactly the whole blocks of a usable range are enciphered in place; an unusable range changes nothing; bytes around the slice are untouched |
| `Blowfish.BlowfishCipher.DecipherRange` | pkg/crypto/blowfish_cipher.go:54-70 | the same with decryption |
| `Blowfish.RangeBlock` | pkg/crypto/blowfish_cipher.go:34-70 | block j of a range depends on block j alone and is its two little-endian words enciphered, least significant byte first |
| `Blowfish.RangeRoundTrip` | pkg/crypto/blowfish_cipher.go:34-70 | deciphering a range undoes enciphering it and the other way round, for every key, buffer, offset and length |
| `Blowfish.RangeOutside` | pkg/crypto/blowfish_cipher.go:34-70 | no byte outside the whole blocks of the range changes |
| `Blowfish.BlowfishCipher.SetKey` | pkg/crypto/blowfish_cipher.go:84-122 | the loops build `KeySchedule`, which `ScheduleFixed` characterises; an empty key leaves the initial tables |
| `Blowfish.ScheduleFixed` | pkg/crypto/blowfish_cipher.go:95-121 | the finished tables characterise themselves: for each of the 521 pairs, left and right word are the encipherment of the pair before it (of zeros for the first) under the tables that have the finished entries before this pair and the key-mixed ones from it on |
| `Blowfish.BlowfishCipher.constructor` | pkg/crypto/blowfish_cipher.go:26-30 | a new cipher holds the schedule of its key |
| `Blowfish.NextKeyWord` | pkg/crypto/blowfish_cipher.go:98-105 | the wrapping index feeds byte (4i+j) mod keyLen, most significant first, for every key length |
| `Blowfish.KeyBytesUsed` | pkg/crypto/blowfish_cipher.go:96-107 | two keys that agree on their first 72 cyclic bytes build the same cipher |
| `Blowfish.RepeatedKey` | pkg/crypto/blowfish_cipher.go:84-122 | a non-empty key written out any number of times builds the identical cipher |
| `Crypts.EncXorPass` | internal/crypto/crypt.go:102-128 | the loop masks each word with the running sum and stores the sum eight bytes before the end; a size below eight or beyond the buffer, as a uint32, changes nothing |
| `Crypts.PassWords` | internal/crypto/crypt.go:102-128 | the masked buffer word by word: the first word is kept, each later one is masked with the key plus the words read up to and with it, the sum stands eight bytes before the end and the last word is kept |
| `Crypts.UndoesXor` | internal/crypto/crypt.go:107-127 | walking back from the stored sum restores every byte before it and arrives at the XOR key |
| `Crypts.Crypt.Encrypt` | internal/crypto/crypt.go:37-65 | pads, masks the first packet only, enciphers all behind the header, keeps the header and flips the flag, whatever the uninitialised bytes |
| `Crypts.FirstBlock` | internal/crypto/crypt.go:37-65 | every block of a first packet is the encipherment of that block after the XOR pass |
| `Crypts.LaterBlock` | internal/crypto/crypt.go:37-65 | every block of a later packet is the encipherment of that block of the payload and padding as they are |
| `Crypts.Crypt.Decrypt` | internal/crypto/crypt.go:69-77 | true exactly for a positive multiple of eight, and then deciphered in place; otherwise untouched |
| `Crypts.EncryptStatic` | internal/crypto/crypt.go:80-99 | the Init packet is always masked and enciphered under the static cipher |
| `Crypts.Crypt.constructor` | internal/crypto/crypt.go:29-34 | a new crypt has its key's schedule and has sent nothing |
| `Crypts.SealedSizeLeast` | internal/crypto/crypt.go:39-54 | the encrypted length is the least multiple of eight with room for payload+16 first and payload+12 after |
| `Crypts.PeerRecoversPayload` | internal/crypto/crypt.go:37-65 | the peer finds the payload in front, for every payload, padding and XOR key |
| `Crypts.PeerRecoversRun` | internal/crypto/crypt.go:37-65 | over every run of packets through one crypt, a peer that undoes the XOR pass on the first packet only recovers every payload |
| `SessionKeys.ChecksAreEquality` | pkg/crypto/session_key.go:39-52 | the branch-free checks hold exactly when every word matches |
| `PacketWriters.PacketWriter.constructor` | pkg/network/packet_writer.go:32-39 | a writer starts with two reserved bytes |
| `PacketWriters.PacketWriter.Reserve` | pkg/network/packet_writer.go:134-144 | afterwards n more bytes fit, nothing visible changed, and the capacity grew by the doubling rule, capped above 64 KiB |
| `PacketWriters.PacketWriter.Extend` | pkg/network/packet_writer.go:125-130 | n bytes longer, the old contents in front, the new part handed out |
| `PacketWriters.PacketWriter.WriteByte` | pkg/network/packet_writer.go:66-68 | appends the byte |
| `PacketWriters.PacketWriter.WriteUint16` | pkg/network/packet_writer.go:71-75 | appends the two little-endian bytes, whatever append did to the backing array |
| `PacketWriters.PacketWriter.WriteInt16` | pkg/network/packet_writer.go:78-80 | appends the two's-complement pattern |
| `PacketWriters.PacketWriter.WriteUint32` | pkg/network/packet_writer.go:83-87 | appends the four little-endian bytes |
| `PacketWriters.PacketWriter.WriteInt32` | pkg/network/packet_writer.go:90-92 | appends the two's-complement pattern |
| `PacketWriters.PacketWriter.WriteUint64` | pkg/network/packet_writer.go:95-99 | appends the eight little-endian bytes |
| `PacketWriters.PacketWriter.WriteInt64` | pkg/network/packet_writer.go:102-104 | appends the two's-complement pattern |
| `PacketWriters.PacketWriter.WriteBytes` | pkg/network/packet_writer.go:119-121 | appends the bytes |
| `PacketWriters.PacketWriter.WriteString` | pkg/network/packet_writer.go:147-167 | the loop overwrites every reserved byte with the UTF-16LE form, surrogate pairs included, and the terminator (section 2.1 of RFC 2781) |
| `PacketWriters.Utf16Len` | pkg/network/packet_writer.go:194-204 | counts the code units of the encoding |
| `Wire.UnitsMeaning` | pkg/network/packet_writer.go:154-164 | a character is its own code unit, or a high and a low surrogate from which it is recovered by the formula of section 2.1 of RFC 2781 |
| `Wire.FieldMeaning` | pkg/network/packet_writer.go:66-167 | the number each field puts on the wire, read least significant byte first, negative ones as two's complement, and every code unit of a string at its place before two zero bytes |
| `PacketWriters.PacketWriter.PrependLength` | pkg/network/packet_writer.go:52-58 | the first two bytes become the total length, the rest stays |
| `PacketReaders.GetPacketReader` | pkg/network/packet_reader.go:41-50 | only more than 64 KiB is refused; a reader starts at the front |
| `PacketReaders.PacketReader.ReadByte` | pkg/network/packet_reader.go:65-72 | takes the next byte, or reports the bounds error and moves nothing |
| `PacketReaders.PacketReader.ReadUint16` | pkg/network/packet_reader.go:75-82 | the same for two bytes |
| `PacketReaders.PacketReader.ReadUint32` | pkg/network/packet_reader.go:85-92 | the same for four bytes |
| `PacketReaders.PacketReader.ReadUint64` | pkg/network/packet_reader.go:95-102 | the same for eight bytes |
| `PacketReaders.PacketReader.ReadInt16` | pkg/network/packet_reader.go:105-108 | the same, as two's complement |
| `PacketReaders.PacketReader.ReadInt32` | pkg/network/packet_reader.go:111-114 | the same, as two's complement |
| `PacketReaders.PacketReader.ReadInt64` | pkg/network/packet_reader.go:117-120 | the same, as two's complement |
| `PacketReaders.PacketReader.ReadBytes` | pkg/network/packet_reader.go:142-149 | takes n bytes, or reports the bounds error and moves nothing |
| `PacketReaders.PacketReader.ReadString` | pkg/network/packet_reader.go:152-192 | takes the code units up to the first zero unit at an even distance, decodes them and moves past the terminator; without one it fails and moves nothing |
| `PacketReaders.PacketReader.SkipString` | pkg/network/packet_reader.go:195-204 | stops where ReadString stops and fails when it fails |
| `Wire.DecodeEncode` | pkg/network/packet_writer.go:154-164 | decoding undoes encoding for every string of scalar values (sections 2.1 and 2.2 of RFC 2781) |
| `Wire.LoneSurrogate` | pkg/network/packet_reader.go:170-190 | a surrogate without its other half decodes to U+FFFD and swallows nothing after it |
| `Wire.TakenExactly` | pkg/network/packet_reader.go:152-192 | a string is taken if and only if there is a zero unit at an even distance, and ends with the first of them |
| `Wire.StringRead` | pkg/network/packet_reader.go:152-192 | reading back a written string gives it up to its first NUL, whatever follows |
| `Wire.StringRoundTrip` | pkg/network/packet_reader.go:152-192 | a string survives, using exactly its own bytes, if and only if it has no NUL |
| `Wire.FieldRoundTrip` | pkg/network/packet_reader.go:65-192 | every typed field is read back with exactly its own bytes used; only a string with a NUL comes back different |
| `Wire.FieldsRoundTrip` | pkg/network/packet_writer.go:66-167 | a list of fields read by its own list of types comes back whole, consuming exactly what was written, if and only if no string has a NUL |
| `Framing.FrameMeaning` | pkg/network/packet_writer.go:52-58 | the first two bytes of a frame, read least significant first, are its whole length, and its body follows |
| `Framing.DrainFrames` | internal/listener/client_listener.go:174-225 | on complete frames followed by a partial one the loop does exactly what handling the bodies one by one does, closing and range errors included |
| `Framing.DrainDecomposes` | internal/listener/client_listener.go:174-225 | on any bytes whatever: the loop opens, hands over and discards some whole frames, and what is left begins with what stopped it, by kind: too little, a faulty frame, a refused one, or one whose handler failed |
| `Framing.ClientOpens` | internal/listener/client_listener.go:192-205 | a client's body is refused exactly if it is empty or no multiple of eight, and otherwise deciphered block by block |
| `Framing.DeliversInOrder` | internal/listener/client_listener.go:174-225 | given opening and handlers succeed, exactly the payloads of the complete frames are handed over in order and the partial frame stays |
| `Framing.PanicExact` | internal/listener/client_listener.go:174-225 | the loop runs out of range if and only if the bytes are some frames that open and are accepted, followed by a faulty one |
| `Framing.FaultySizes` | internal/listener/gs_listener.go:105-118 | a client frame is faulty exactly if it announces less than two bytes, a game-server frame exactly if it is complete and announces less than three |
| `Framing.ZeroSizePanics` | internal/listener/client_listener.go:179-190 | two zero bytes run either loop out of range |
| `Framing.ClientOnTraffic` | internal/listener/client_listener.go:166-228 | the loop, deciphering in place, is that function, terminates, and leaves the unconsumed bytes as they arrived |
| `Framing.ServerOnTraffic` | internal/listener/gs_listener.go:92-145 | the same loop without a cipher; reading the opcode of an empty body is out of range |
| `Pipeline.SendAsync` | internal/client/client.go:76-90 | what is written out is the frame of the sealed opcode and fields |
| `Pipeline.Send` | internal/client/gs_client.go:37-53 | what is written out is the frame of the plain opcode and fields |
| `Pipeline.PacketSurvives` | internal/client/client.go:76-90 | from a sealed packet the peer reads exactly the fields written |
| `Pipeline.StreamSurvives` | internal/client/client.go:76-90 | end to end, for every run of packets: splitting the stream gives the sealed bodies in order and each yields exactly its fields |
| `Pipeline.ClientStreamDelivered` | internal/listener/client_listener.go:166-228 | a client's enciphered stream reaches the handlers as the plain bodies in order |
| `Sharding.SplitUnique` | internal/service/session_registry.go:46-143 | the shards and the flat map determine each other: every key sits only in the shard its masked hash names |
| `Sharding.SplitKept` | internal/service/session_registry.go:123-134 | filtering every shard is filtering the flat map |
| `Sharding.Sweep` | internal/service/session_registry.go:123-134 | the nested loop over shards and entries, deleting as it goes, is one filter |
| `RateLimiters.ShardIndex` | internal/middleware/rate_limiter.go:99-107 | FNV-1a over the sixteen bytes, masked; always in bounds |
| `RateLimiters.Fnv1aOfA` | internal/middleware/rate_limiter.go:99-107 | the published FNV-1a value of the one letter "a" |
| `RateLimiters.RateLimiter.constructor` | internal/middleware/rate_limiter.go:36-46 | starts empty |
| `RateLimiters.RateLimiter.Allow` | internal/middleware/rate_limiter.go:50-72 | the answer and the new state of the flat map, with the window reset at "at least window" |
| `RateLimiters.RateLimiter.Cleanup` | internal/middleware/rate_limiter.go:86-97 | evicts exactly the entries older than the window |
| `RateLimiters.CleanupUnobservable` | internal/middleware/rate_limiter.go:86-97 | cleanup steps anywhere in a run, shard by shard and with a stale cutoff, change no answer |
| `RateLimiters.WindowBound` | internal/middleware/rate_limiter.go:50-97 | in every time-ordered run no interval as long as the window admits more than 2·limit attempts of one address |
| `RateLimiters.AnsweredByCount` | internal/middleware/rate_limiter.go:57-71 | an attempt is admitted if and only if fewer than limit were admitted since its window began; when that was is computed from the answers alone: a window begins with the first admitted attempt at or past its length after the last one began; a window of no length limits each attempt by itself |
| `SessionRegistries.GetShard` | internal/service/session_registry.go:136-143 | FNV-1 over the UTF-8 bytes, masked; always in bounds |
| `SessionRegistries.Utf8Meaning` | internal/service/session_registry.go:136-143 | the bytes a name is hashed by are its UTF-8 encoding: length, prefixes and value for every character (section 3 of RFC 3629) |
| `SessionRegistries.Fnv1OfA` | internal/service/session_registry.go:136-143 | the published FNV-1 value of the one letter "a" |
| `SessionRegistries.SessionRegistry.constructor` | internal/service/session_registry.go:35-43 | starts empty |
| `SessionRegistries.SessionRegistry.TryRegister` | internal/service/session_registry.go:46-74 | the four outcomes (fresh, held, kicking, stamped), each with its answer and its change of the flat map |
| `SessionRegistries.AdmittedExactly` | internal/service/session_registry.go:46-134 | over every run, from the events and their answers alone: an absent account is let in; one whose login is under way, for less than 5 seconds, is not; any other attempt is let in, with a kick, if and only if the latest thing to settle the matter (an attempt while no login was under way, a Register, or the end of the entry) is an attempt turned down less than 30 seconds before. The server plays no part |
| `SessionRegistries.SessionRegistry.Register` | internal/service/session_registry.go:77-87 | overwrites the entry, with no server and no stamp |
| `SessionRegistries.SessionRegistry.Unregister` | internal/service/session_registry.go:90-100 | removes the entry exactly if the session id matches, and says so |
| `SessionRegistries.SessionRegistry.SetGS` | internal/service/session_registry.go:103-111 | changes the server of an existing entry only |
| `SessionRegistries.SessionRegistry.GetInfo` | internal/service/session_registry.go:114-120 | looks the flat map up |
| `SessionRegistries.SessionRegistry.ClearServer` | internal/service/session_registry.go:123-134 | the nested loops equal one filter on the server |
| `SessionRegistries.RejectedBetweenAdmissions` | internal/service/session_registry.go:46-74 | between two admissions of one name the entry was removed, or a rejection lies between them, stamped under 30 seconds before the second |
| `SessionRegistries.KicksNeedStamps` | internal/service/session_registry.go:65-73 | kicking admissions never outnumber stamped rejections |
| `SessionRegistries.PlaceholderHolds` | internal/service/session_registry.go:53-63 | for five seconds a fresh placeholder admits nobody, unless removed or overwritten by Register |
| `PlayerStatus.HandlePlayerInGame` | internal/packet/gs/player_status.go:40-62 | moves exactly the accounts read before the first bad string; a size out of bounds moves none |
| `PlayerStatus.MovedAllMeaning` | internal/packet/gs/player_status.go:53-60 | a batch changes the server of the named accounts that have an entry and nothing else |
| `PlayerStatus.BatchApplied` | internal/packet/gs/player_status.go:44-61 | a batch as a game server writes it moves exactly the accounts it names |
| `PlayerStatus.BatchRefused` | internal/packet/gs/player_status.go:44-51 | a batch announcing fewer than zero or more than 256 names moves nobody and fails |
| `PlayerStatus.BatchBroken` | internal/packet/gs/player_status.go:53-60 | a batch that breaks off at a name moves exactly the names before it and fails |
| `PlayerStatus.HandlePlayerLogout` | internal/packet/gs/player_status.go:65-82 | with nobody in between, removes the account exactly if it is on the reporting server |
| `PlayerStatus.FindLogout` | internal/packet/gs/player_status.go:69-77 | the handler up to its second locked section: the session id to remove, exactly if the account is on the reporting server |
| `PlayerStatus.SplitLogoutExact` | internal/packet/gs/player_status.go:74-79 | with any other events between its two locked sections a logout removes a player who is no longer on the reporting server if and only if one of them put the account elsewhere under the same session id and none moved it again |
| `HandoffStore.Store.Put` | internal/session/session.go:45-50 | stores under the id, replacing |
| `HandoffStore.Store.ValidateAndDelete` | internal/session/session.go:53-66 | removes the id in every case and returns the session if it is not past its time |
| `HandoffStore.Store.Collect` | internal/session/session.go:76-85 | one tick removes exactly the expired sessions |
| `HandoffStore.ValidationAnswers` | internal/session/session.go:53-85 | in every run a validation returns the latest put of its id, unless validated since or expired; the collector, however stale its clock, makes no difference |
| `HandoffStore.CollectingUnobservable` | internal/session/session.go:69-91 | removing all collector steps from a run changes no answer |
| `HandoffStore.NeverMoreThanPut` | internal/session/session.go:45-66 | successful validations of an id never exceed its puts |
| `BanManagers.BanManager.constructor` | internal/service/ban_manager.go:31-53 | starts with the loaded bans and no failures |
| `BanManagers.BanManager.Look` | internal/service/ban_manager.go:57-69 | the first lock and the clock reading after it: no ban, a ban that holds, or one that has run out and is to be looked at again |
| `BanManagers.BanManager.Recheck` | internal/service/ban_manager.go:70-87 | the second lock: an expired ban is dropped and denied, anything else, a missing ban too, is reported as a ban |
| `BanManagers.BanManager.IsBanned` | internal/service/ban_manager.go:56-88 | the two together, with nobody in between: the answer is "recorded and not past its expiry", and only an expired ban is dropped |
| `BanManagers.BanManager.RecordFailure` | internal/service/ban_manager.go:91-122 | counts, or bans and starts over; loopback is exempt |
| `BanManagers.BanManager.ResetAttempts` | internal/service/ban_manager.go:125-129 | forgets the failures of one address |
| `BanManagers.StoredCount` | internal/service/ban_manager.go:96-104 | in every run the stored count is the failures since the last reset modulo the threshold, so always below it |
| `BanManagers.BanExactlyWhenDue` | internal/service/ban_manager.go:91-122 | a failure installs a ban if and only if it completes a multiple of the threshold since the last reset |
| `BanManagers.LoopbackExempt` | internal/service/ban_manager.go:56-122 | over every run a loopback address has no failures counted, no ban added or dropped, and is never reported banned |
| `BanManagers.IsBannedExact` | internal/service/ban_manager.go:56-88 | in every time-ordered run IsBanned, lazy deletion and all, says exactly whether the latest due ban has not run out |
| `BanManagers.SplitAnswerExact` | internal/service/ban_manager.go:56-129 | over every time-ordered run of any number of callers, failures and resets, with the two locks as separate steps: an answer differs from whether the latest due ban has not run out if and only if another caller dropped the expired ban between the two locks and no failure banned the address again |
| `BanManagers.CountsTrack` | internal/service/ban_manager.go:96-104 | with other callers in between too, the stored count is the failures since the last reset modulo the threshold |
| `BanManagers.SplitAnswerCanBeWrong` | internal/service/ban_manager.go:69-87 | a run of two callers in which that happens |
| `ServerLists.ServerList.constructor` | internal/service/server_list.go:51-55 | starts with no server |
| `ServerLists.ServerList.Register` | internal/service/server_list.go:58-74 | the server becomes active under its id; an id out of bounds is ignored |
| `ServerLists.ServerList.Unregister` | internal/service/server_list.go:77-88 | exactly that id is no longer active |
| `ServerLists.ServerList.UpdateStatus` | internal/service/server_list.go:91-110 | changes the low byte or low word of an active server's field, nothing otherwise |
| `ServerLists.ServerList.GetServers` | internal/service/server_list.go:113-125 | the snapshot lists exactly the active servers, strictly increasing by id |
| `ServerLists.ServerList.SetCharCount` | internal/service/server_list.go:128-138 | sets one count of one account, unknown counts reading as zeros |
| `ServerLists.ServerList.RemoveAccount` | internal/service/server_list.go:150-154 | forgets the counts of one account |
| `ServerLists.SnapshotUnique` | internal/service/server_list.go:113-125 | there is only one such snapshot |
| `ServerLists.ActiveIsKnown` | internal/service/server_list.go:58-110 | after any run the active servers are exactly the latest registrations not unregistered since, with later updates applied |
| `ServerLists.UpdateMeaning` | internal/service/server_list.go:91-110 | kind 1 sets the status, kind 2 the current players, each congruent to the value modulo its width; every other field, kind and server stays |
| `ServerListPacket.WriteList` | internal/packet/client/server_list.go:69-125 | the loops write the list's fields: header, one entry a server, the character segment |
| `ServerListPacket.EntryLayout` | internal/packet/client/server_list.go:75-104 | the 21 bytes of one server with an IPv4 address, each at its offset; a full server is shown as down |
| `ServerListPacket.ListLayout` | internal/packet/client/server_list.go:69-125 | where everything is in the packet when every address is IPv4: two header bytes, 21 bytes a server, the separator, and two bytes a server for its characters |
| `ServerListPacket.ListReadBack` | internal/packet/client/server_list.go:69-125 | when every address is IPv4, a client reads back exactly the snapshot's transmitted fields and the character counts |
| `ServerListPacket.ListReadExact` | internal/packet/client/server_list.go:69-125 | the packet is read in its layout if and only if every address is IPv4, and then says exactly that |
| `ServerListPacket.ListSize` | internal/packet/client/server_list.go:77-84 | each server without an IPv4 address shortens the packet by four bytes |
| `Credentials.CleanBytes` | internal/packet/client/login.go:203-219 | the two scans trim blanks from both ends |
| `Credentials.CleanPadded` | internal/packet/client/login.go:203-219 | exactly the blanks around a text go; those inside stay |
| `Credentials.ReadLoginBlocks` | internal/packet/client/login.go:141-157 | one block, or two if 128 more bytes follow, or the error |
| `Credentials.DecodeCredentials` | internal/packet/client/login.go:160-188 | the decrypted blocks are cut and trimmed in the one-block or two-block form, or a decryption error is passed on; `LayoutRead` says where each text is |
| `Credentials.LayoutRead` | internal/packet/client/login.go:168-188 | the client's layout, in numbers: one block with the name in 14 bytes from 94 on and the password in 16 from 108 on; two blocks with the name in 50 bytes from 78 on and 14 from 206 on, and the password in 16 from 220 on. What is written there, padded with blanks or zeros, is what is read |
| `Credentials.AlwaysWrites` | internal/packet/client/login.go:168-188 | every pair of blocks is such a layout, of exactly one pair of texts |
| `Credentials.CredentialsRecovered` | internal/packet/client/login.go:160-188 | the server decodes exactly the name and password a client wrote at their offsets and enciphered, in either form |
| `Handlers.Client.constructor` | internal/listener/client_listener.go:121-130 | a client starts connected, without an account |
| `Handlers.Client.Commit` | internal/packet/client/login.go:120-123 | the identity commit as one step |
| `Handlers.PacketMeaning` | internal/packet/client/gs_login.go:24-55 | the bytes a client has to send to advance: its session id; its two login words in order; those and a server from 0 to 31, all little-endian at the front |
| `Handlers.LoginMeaning` | internal/packet/client/login.go:56-157 | a worker starts exactly past AuthGG and with 128 bytes, on those and on the next 128 if they are all there |
| `Handlers.AuthGG` | internal/packet/client/auth_gg.go:17-43 | only the client's own session id advances it, from any state; another is answered with a failure that closes |
| `Handlers.HandleLogin` | internal/packet/client/login.go:56-70 | a worker gets the blocks exactly if the client is past AuthGG and they are there; otherwise a failure that closes |
| `Handlers.HandleServerList` | internal/packet/client/server_list.go:39-128 | only an authenticated client with its own login words advances, and it gets the list of exactly the active servers with its own counts |
| `Handlers.GameServerLogin` | internal/packet/client/gs_login.go:22-72 | a handoff is put, under the client's own first login word and with everything taken from the client, exactly for the right state, words and server; the wrong ones close |
| `Handlers.HandleValidate` | internal/packet/gs/validate.go:20-78 | a well-formed request consumes the handoff before anything is compared, and is answered with `Verdict`, which `VerdictRead` says how a game server reads; a malformed one does nothing |
| `Handlers.VerdictRead` | internal/packet/gs/validate.go:43-78 | from the bytes of the answer a game server reads the account and login word it asked about, and status 1 with the handoff's account id if and only if a handoff for that login word is there, in time, of that account up to case and with those four words; otherwise status 0 and id 0 |
| `Login.ProcessLogin` | internal/packet/client/login.go:73-138 | the whole worker, each step with its own clock reading: client, registry, bans, answer, and the account displaced, whose connection here is closed and forgotten |
| `Login.LoginSound` | internal/packet/client/login.go:73-138 | success only with credentials the database accepts for the decrypted name; then exactly that name and id are committed and registered and its failures forgotten; a failed login leaves the client as it was |
| `Login.LoginAnswers` | internal/packet/client/login.go:73-200 | what the client is told in every case, word for word, and who is displaced: the connection in the lobby, or the player on the server the entry names |
| `Login.LoginAsWritten` | internal/packet/client/login.go:73-138 | in the one-block and the two-block form: logged in if and only if the database accepts exactly the name and password the client wrote at their offsets and the registry admits the name, and then as that name with that row |
| `Listeners.InitPacket` | internal/listener/client_listener.go:142-162 | the Init packet is the frame of its fields sealed under the static cipher |
| `Listeners.InitLayout` | internal/listener/client_listener.go:142-160 | the Init packet word by word, constants included |
| `Listeners.InitRecovered` | internal/listener/client_listener.go:142-162 | from it a client recovers exactly the session id, the RSA modulus and the Blowfish key |
| `Listeners.InitRSAPool` | pkg/crypto/scrambled_key.go:41-67 | every key of the pool carries the scrambled form of its own modulus |
| `Listeners.HandshakeThenLogin` | internal/listener/client_listener.go:142-162 | from the bytes OnOpen sends a client reads its session id, its Blowfish key and the modulus of the very key its connection got; the name and password it writes into its blocks and enciphers with that modulus are what the worker decodes, in either form |
| `Listeners.ClientListener.Admit` | internal/listener/client_listener.go:98-107 | admitted exactly if within the rate and not banned; the ban list is asked only after the limiter |
| `Listeners.ClientListener.Choose` | internal/listener/client_listener.go:98-117 | an admitted address gets the next key of the round robin, unless the pool is empty |
| `Listeners.ClientListener.Welcome` | internal/listener/client_listener.go:118-162 | a new client in the table, with the chosen key, a fresh crypt under its Blowfish key, and its Init packet |
| `Listeners.ClientListener.OnOpen` | internal/listener/client_listener.go:94-163 | a new client exactly for an admitted address and a non-empty key pool, with the next key of the round robin, a fresh crypt and its Init packet |
| `Listeners.ClientListener.OnClose` | internal/listener/client_listener.go:231-253 | frees the account and its counts exactly if it is still registered under this very session and not in a game |
| `Listeners.ClientListener.KickAccount` | internal/listener/client_listener.go:280-292 | forgets one connection of that account, if there is any |
| `Listeners.GameServerListener.OnClose` | internal/listener/gs_listener.go:148-166 | a server with an id leaves the list and exactly its players are dropped; nobody in the lobby is touched |
| `Connections.StepExact` | internal/listener/client_listener.go:231-292 | with an open connection behind every lobby account, a step keeps it so if and only if it is a safe one; Register and the identity commit (internal/packet/client/login.go:118-123) are two steps |
| `Connections.OwnedThroughout` | internal/listener/client_listener.go:231-292 | over every run, accounts have an open connection behind them throughout exactly when every step is safe where it is taken |
| `Connections.AllGone` | internal/listener/client_listener.go:236-242 | with accounts owned and every connection gone, only placeholders and players in a game are left |
| `Connections.PlayerOutlives` | internal/listener/client_listener.go:231-252 | a player in a game stays registered, under the same id and server, through any events, its own connection closing included, until that account is registered anew, moved or reported gone, or its server ends |
| `Connections.ClosingFrees` | internal/listener/client_listener.go:231-252 | a close frees an account if and only if the connection was open, logged in under that name and the entry's id, and the account is not in a game |
| `Connections.KickedEntryOutlives` | internal/listener/client_listener.go:280-292 | a run that leaves an account occupied with nobody connected |
| `Connections.ClosedBetweenOutlives` | internal/packet/client/login.go:118-123 | a run in which a close between Register and the commit leaves an account occupied |
| `Protocol.AlwaysJustified` | internal/packet/client/gs_login.go:24-65 | in every state of every interleaving each client state, each worker with its blocks and its database row, and each handoff has its history |
| `Protocol.GrantMeaning` | internal/packet/gs/validate.go:43-78 | "granted" is what the game server reads in the bytes of the answer, status 1, the account id and its own account and login word, and that is so exactly if the request is honoured with that handoff |
| `Protocol.ValidationProvenance` | internal/packet/gs/validate.go:43-47 | behind every answer that a game server reads as granted one client, in this order, passed AuthGG with its own session id; sent the login packet whose blocks its worker held until it committed; had the database accept the name and password decrypted from those blocks with the row whose id is reported; committed that name and row; passed the list; and put the handoff at most the TTL before. Its four words are the four presented, its account is the requested one up to case, and nobody asked since |
| `Protocol.PutsUsedOnce` | internal/packet/gs/validate.go:43-47 | a second answer read as granted under one login word goes back to a put after the first |
| `Protocol.HandoffHonoured` | internal/packet/client/gs_login.go:57-65 | a matching request within the TTL is answered so that the game server reads it as granted, unless the login word was asked for or put again in between |
| `Protocol.HonestClientSucceeds` | internal/packet/gs/validate.go:43-47 | a client that follows the protocol, with any keys and with credentials the database accepts at that time, is granted, in the bytes the game server reads, under its own name and id within the TTL |
| `Protocol.StateLowered` | internal/packet/client/auth_gg.go:36 | a step lowers the state of a client if and only if it is its AuthGG after logging in or the commit of another of its workers after the server list (internal/packet/client/login.go:122) |
| `Protocol.SetBack` | internal/packet/client/login.go:120-123 | runs in which each of the two happens |

## Left out

- gnet, its engines and `AsyncWrite`: library code; framing is modelled on the bytes buffered for one connection.
- PostgreSQL, bcrypt and the asynchronous writes of bans: authentication is an arbitrary function of name, password and time to an account row or an error.
- Randomness: session ids, session keys, Blowfish keys, XOR keys and RSA primes are arbitrary inputs; primality and the relation of e and d are preconditions of the RSA members.
- The constant tables of Blowfish: any initial tables will do.
- Locks and goroutines: each locked section is one atomic step with its clock reading. Readings just outside a lock (`Allow` before it, `ValidateAndDelete` after it) are taken as part of the step.
- Protocol.ValidationProvenance: whether the registry admits a login is an input of the commit step here, modelled in full in `Login`; the game server's own id is not compared because the code does not compare it.
- Login.ProcessLogin: runs alone from start to end; a kick from a game server is a reported outcome, since the packet that carries it is not part of this model.
- Listeners.ClientListener.KickAccount: the same removal by `OnTick`, for idle connections, appears only as a step of `Connections`.
- PacketReaders.PacketReader.ReadBytes: a negative count is not modelled, nor that the slice returned shares the packet's memory.
- PacketWriters.PacketWriter.PrependLength: the panic above 65535 bytes is a precondition, as is that a number fits in FillBytes.
- ServerListPacket.ListReadBack: address parsing is an arbitrary function from text to four octets.
- Strings are sequences of Unicode scalar values; invalid UTF-8 is not modelled. `ToLower` and `EqualFold` work through arbitrary functions, and an address is loopback by an arbitrary predicate.
- Handoff sessions hold a copy of the client's key words; the code holds a pointer to words that never change.
- Overflow of Go's 64-bit int in offset arithmetic; times are unbounded integers.
- `sync.Pool`: only that reused buffers hold arbitrary bytes is kept. `Zero`, floats, `WriteSizedString`, the opcode registries, `HandleInit`, `HandleStatus`, `HandleReplyCharacters`, logging and metrics: straight-line code or no property of interest.
