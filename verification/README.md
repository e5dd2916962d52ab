# A verified model of bmchat

bmchat is a Bitmessage client: it exchanges encrypted objects with peers, does proof of work for what it
publishes, and waits for acknowledgements of what it sends. This project models the parts of it whose
correctness does not show in any one function, and proves what they are there for.

The model keeps the shape of the code. Expressions are functions; loops over local variables are methods with
invariants, tied to a function that says what they compute; objects that change in place are classes. What the
threads of the client share is modelled twice: as a state machine whose steps are the sections of code run under
a lock and the single database statements, and as a class. The methods of the classes in `OutgoingClient.dfy`,
`NetworkManager.dfy` and `Connections.dfy` run without interruption; each that changes shared tables states which
step, or which run of steps, of its machine it performs. What a machine proves of all its runs so holds for any
sequence of these methods, and the interruptions that the threads of the client allow are runs of the machine too.

## The files

- `Positional.dfy`, `Bytes.dfy`, `Collections.dfy`, `Sorting.dfy`: numbers in a base, byte strings, sequences as
  sets, stable sorting.
- `Varint.dfy`, `Base58.dfy`, `Address.dfy`, `Packets.dfy`, `Objects.dfy`, `Messages.dfy`: the wire formats, each
  as a printer and a parser with both round trips, from variable length integers (Bitmessage protocol v3, section
  "Variable length integer") up to signed and encrypted objects. Where a round trip has exceptions, the exact
  condition is proved.
- `ProofOfWork.dfy`, `RangeScheduler.dfy`: the target, the receiver's check, the single-threaded search, and the
  scheduler of parallel ranges of nonces.
- `AckLoop.dfy`: how an acknowledgement made by the sender travels inside a message, is published by the
  recipient, and marks the message when it comes back. `Consistency.dfy` gives a toy cryptography for which all
  hypotheses of that theorem, and of the exchange of keys, hold.
- `Delivery.dfy`, `OutgoingClient.dfy`: the life of outgoing messages under all threads of the client.
- `KeyExchange.dfy`: how a sender asks for a recipient's keys by a tag only the address gives, and gets them.
- `ObjectSync.dfy`, `NetworkManager.dfy`, `Resend.dfy`, `BigInventory.dfy`, `RateLimiter.dfy`: inventory, known
  hashes, requests and their repetition, replies, the inventory announced to a new peer, and the rate limiter.
- `PeerStore.dfy`, `Connections.dfy`: ranking and backoff of peers, and the budget of connections.
- `TextWrap.dfy`: wrapping text, plainly and with a cache of word widths.

## How things are represented

SHA-512 is any function with 64-byte results; RIPEMD-160, encryption, decryption, signing and verification are
functions in a record `Crypto`. Ideal encryption (`Opens`, `IdealReaders`) and the sizes of section 6.3 of RFC 5652
(`SealsInBlocks`) are hypotheses of the theorems that need them. Whether a signature verifies decides how a round
trip ends, and nothing is delivered whose signature does not (`DeliveredIsGenuine`, `LearnedIsGenuine`,
`ShownIsGenuine`). That is not a formality: `verify_signature` refuses signatures with a high S value
(bmchat/crypto/ecc.py:117-124) and `sign_data` may produce one (bmchat/crypto/ecc.py:94). Time and randomness are
parameters; a source of randomness is a function that may return anything in its range. Tables of the database are
maps. Whether a packet can be sent, a query succeeds, a stop event is set or a worker crashes is decided by a
parameter that may answer anything.

## What the code does where one might expect otherwise

- An outgoing message is not announced at most four times before its acknowledgement. The queue scan publishes
  rows it read earlier without reading them again, and takes no retry slot for that. `AnnouncementBound` counts
  these stale starts exactly, and `BoundIsAttainedByClient` reaches the bound for every number of them. When scans,
  immediate sends and final checks are not interrupted there are none, and four is the bound (`FourAnnouncements`).
- `build_msg_unsigned` writes the object's stream where the sender's belongs, so a recipient attributes the message
  to the sender's own address only when the two streams are equal (`SenderAddressIsOwn`).
- Base 58 does not round-trip all-zero input, except a single zero byte, nor more than 100 characters
  (`Base58.DecodeOfEncode`, `Base58.EncodeOfDecode`).
- The share per peer in the retry scheduler has no effect on how many hashes a tick asks for
  (`TickAsksForThousands`).
- The limit of a thousand hashes asked for per offer never applies: it is looked at only when 200000 requests are
  pending, and then there is no room for any (`LimitIsFifty`).
- A peer is dropped from the store at its fifth failure in a row, so the backoff cap of an hour is never reached,
  unless a stored file says that a peer failed more often (`BackoffIsShort`).
  Between peers of equal rating the one seen longest ago is dialed first.
- A connected peer that never sends anything useful is evicted after thirty seconds, so the report that lowers its
  rating after sixty seconds is made only when no prune came by in between (`MuteNeedsALatePrune`).
- Connections stay within the cap while one tick runs at a time. The threads started by a re-sync may run a tick
  each beside the maintenance thread; `RunKeepsBudget` and `BudgetIsReached` give the exact bound for that.
- The cached text wrapper adds up widths. It agrees with the plain one on every text and width exactly for the
  measures `AgreeIffSteady` names, which leaves out kerning across a space (`KerningDiffers`) and allows ligatures
  inside words (`LigaturesAgree`).
- A comment in the code speaks of four extra connection slots; the constant is six.

## Model

| member | source | states |
|---|---|---|
| Varint.DecodeIffEncoding | bmchat/util/varint.py:20-53 | Decoding a buffer gives `v` over `length` bytes exactly when those bytes are the encoding of `v`, so reading undoes writing and only minimal encodings are read |
| Varint.PrefixDecodes | bmchat/util/varint.py:47-53 | Whatever follows it, an encoded number is read back with its own length |
| Varint.EncodingIsPrefix | bmchat/util/varint.py:34-53 | Whatever is read was written in its one minimal form at the front of the buffer |
| Varint.DecodeFirstNine | bmchat/util/varint.py:47-53 | Nine bytes are always enough to read a number |
| Varint.EncodeInjective | bmchat/util/varint.py:20-31 | Encodings are prefix-free: two that agree with their continuations are the same number |
| Base58.EncodeBase58 | bmchat/util/base58.py:5-18 | The loop computes one '1' per leading zero byte followed by the base 58 digits of the number |
| Base58.DecodeBase58 | bmchat/util/base58.py:21-37 | The loop computes the decoded bytes, or the error for a character outside the alphabet or more than 100 characters |
| Base58.AlphabetDistinct | bmchat/util/base58.py:1-3 | The alphabet has 58 different characters |
| Base58.DecodeOfEncode | bmchat/util/base58.py:5-37 | Decoding undoes encoding exactly when the text has at most 100 characters and the blob has a nonzero byte or is a single zero byte |
| Base58.EncodeOfDecode | bmchat/util/base58.py:5-37 | Encoding undoes decoding exactly when some character is not '1' or the text is "1" |
| Base58.EncodeOfDecodeNonzero | bmchat/util/base58.py:5-37 | A text that decodes to something other than zeros is the encoding of what it decodes to |
| Base58.EncodedLength | bmchat/util/base58.py:5-18 | A text has at most two characters per byte and one more |
| Address.DecodeOfEncode | bmchat/protocol/address.py:21-91 | Decoding an encoded address gives back version, stream and key hash exactly when the stream is not 0 and, for version 4, the key hash is not all zero |
| Address.EncodeOfDecode | bmchat/protocol/address.py:77-91 | Every text that decodes to a version 4 address is, after stripping and prefixing, the one text that encoding its parts gives |
| Address.EncodeInjective | bmchat/protocol/address.py:21-37 | Version 4 addresses of different streams or key hashes are different texts |
| Address.SealedOfDecode | bmchat/protocol/address.py:40-74 | A binary address of version 4 that is accepted is the checksummed form of what it decodes to |
| Address.TextRoundTrip | bmchat/protocol/address.py:77-91 | Prefix and base 58 text lose nothing of a binary address |
| Address.AddressIs | bmchat/protocol/address.py:21-37 | An address is "BM-" and the base 58 text of version, stream, key hash without its leading zeros and the first four bytes of their double hash |
| Address.EmbeddedIs | bmchat/protocol/address.py:27-35 | The text drops all leading zero bytes of the key hash in version 4, and at most two before |
| Address.DecodeOfSurrounded | bmchat/protocol/address.py:77-91 | White space around an address and the prefix before it make no difference |
| Address.TextsOfAddress | bmchat/protocol/address.py:77-91 | Every text that decodes to a version 4 address is its one code, with or without the prefix, between white space |
| Objects.ParseOfComplete | bmchat/protocol/objects.py:22-68 | An assembled and completed object parses to its own header, data and hash, unless it is over the size limit |
| Objects.CompleteOfParse | bmchat/protocol/objects.py:22-68 | Whatever parses is byte for byte the assembly of the parts it parses to |
| Objects.ParseOfHeader | bmchat/protocol/objects.py:32-56 | An object that ends with its version is refused for want of a stream |
| Messages.ParseOfBuilt | bmchat/protocol/objects.py:112-266 | The plaintext of a built message is read back field by field, or refused exactly for a difficulty out of range, a signature that does not verify, or another recipient |
| Messages.FirstReaderIs | bmchat/protocol/objects.py:185-197 | The message goes to the first identity whose attempt does not come to nothing |
| Messages.AttemptOfBuilt | bmchat/protocol/objects.py:185-266 | One identity's attempt at a built message succeeds exactly when it can open it, is the addressee and the letter is acceptable |
| Messages.MessageRoundTrip | bmchat/protocol/objects.py:112-266 | With ideal encryption the first addressee gets every field of the letter back, exactly when the object is within the size limit, the sender's difficulty in range and the signature verifies |
| Messages.ReadSenderOf | bmchat/protocol/objects.py:199-225 | The sender's part of a message of any version is read back, or refused exactly for a version that does not exist, stream 0 or, from version 3 on, a difficulty out of range |
| Messages.DeliveredIsGenuine | bmchat/protocol/objects.py:185-266 | Of any object whatever, a message read was signed by the key it names, field by field and together with the object's expiry and stream, is addressed to the identity that reads it, and is shown under the address of its keys |
| Messages.SenderAddressIsOwn | bmchat/protocol/objects.py:112-137 | The address a message is attributed to is the sender's own exactly when the object travels in the sender's stream |
| Messages.BodyWithinLimitFits | bmchat/core/client.py:1719-1733 | Every body of at most 200000 bytes, with a signature of at most 72 and the client's acknowledgement packet, makes an object of at most 2^18 bytes |
| Messages.EncryptedLengthIs | bmchat/crypto/ecies.py:58-70 | A ciphertext is 118 bytes more than its plaintext padded up to the next sixteen |
| Messages.KeysOfOwnAddress | bmchat/protocol/objects.py:461-476 | Owner and stranger derive the same tag and key from an address |
| Messages.DifficultyIs | bmchat/protocol/objects.py:160-165 | Exactly a missing difficulty, announced as a thousand, and those from a thousand to a million are accepted |
| Messages.PubkeyRoundTrip | bmchat/protocol/objects.py:95-331 | A published key comes back whole to everyone who has the address, exactly when the object is within the size limit, the difficulty in range and the signature verifies |
| Messages.LearnedIsGenuine | bmchat/protocol/objects.py:281-331 | Of any object whatever, keys read for an address come from a publication under its tag, hash to its key hash and have signed themselves and their difficulty |
| Messages.BroadcastRoundTrip | bmchat/protocol/objects.py:140-447 | A subscriber reads a broadcast back with the author's own address, exactly when the object is within the size limit, the difficulty in range, the encoding not 0 and the signature verifies |
| Messages.ShownIsGenuine | bmchat/protocol/objects.py:347-447 | Of any object whatever, a broadcast read comes under a tag subscribed to, its author's keys hash to that tag and to the address shown, and have signed its fields |
| ProofOfWork.TargetAntitone | bmchat/crypto/pow/__init__.py:29-39 | Through both floor divisions and the clamps, a higher difficulty, size or lifetime never raises the target |
| ProofOfWork.TargetPositive | bmchat/crypto/pow/__init__.py:29-39 | For every difficulty a key may announce, every size up to the limit and 21 days to live the target is at least 1 |
| ProofOfWork.TrialIsPowValue | bmchat/crypto/pow/__init__.py:42-44 | What the search tries on the hash of the unsigned object is what the receiver computes on the object |
| ProofOfWork.SenderWorkIsSufficient | bmchat/crypto/pow/__init__.py:47-70 | A nonce that meets the sender's target, for any difficulty and at least the remaining lifetime, is accepted by every default receiver from the build time on |
| ProofOfWork.SufficientIffMeets | bmchat/crypto/pow/__init__.py:47-70 | The receiver lets an object through exactly when its nonce is one the search would stop at for the remaining life |
| ProofOfWork.WorkIs | bmchat/crypto/pow/__init__.py:42-44 | A nonce meets a target exactly when the first eight bytes of the double hash over it are, as a number, at most the target |
| ProofOfWork.TargetIs | bmchat/crypto/pow/__init__.py:29-39 | The target is the largest number whose product with the difficulty stays within 2^64, with 1000, 1000 and five minutes as the least demands |
| ProofOfWork.FindNonceSingleThreaded | bmchat/crypto/pow/__init__.py:125-146 | The search returns the first nonce from the start that meets the target; it reports exhaustion only when no 64-bit nonce does, and stops only for the stop event |
| RangeScheduler.SearchRange | bmchat/crypto/pow/standard.py:61-86 | A worker's report is honest: the trials it counts failed, the nonce it names is the first to succeed, and an early end without one is due to the stop event |
| RangeScheduler.RangeOfNonce | bmchat/crypto/pow/standard.py:195-201 | Among the first 2^44 ranges a nonce is in number k exactly when it lies between k and k + 1 steps past the origin, modulo 2^64 |
| RangeScheduler.RangesTile | bmchat/crypto/pow/standard.py:195-201 | Until 2^44 ranges are out none overlap, and together they cover every nonce |
| RangeScheduler.EmptyReport | bmchat/crypto/pow/standard.py:61-86 | A full report without a nonce rules out its whole range |
| RangeScheduler.EmptyPrefix | bmchat/crypto/pow/standard.py:61-86 | When the first n ranges have reported empty no nonce within n steps of the origin works; with all of them, none at all |
| RangeScheduler.Solver.SeedFutures | bmchat/crypto/pow/standard.py:195-201 | Every worker gets its own range, in order |
| RangeScheduler.Solver.PollFutures | bmchat/crypto/pow/standard.py:203-239 | A returned nonce meets the target and was reported by the last future looked at; otherwise every finished range is replaced by the next one, the others stay, and none is lost; the trials of the futures looked at are added up |
| RangeScheduler.Solver.TakeResult | bmchat/crypto/pow/standard.py:211-236 | The result of one future is a nonce that meets the target, or its range gives way to the next one |
| RangeScheduler.Solver.Solve | bmchat/crypto/pow/standard.py:147-189 | Over a whole solve of any number of rounds: a nonce returned meets the target and was reported for a range handed out; a solve ends without one only when stopped or without workers; and a range handed out, searched to its end and holding a solution is not passed over |
| RangeScheduler.Solver.Submit | bmchat/crypto/pow/standard.py:195-201 | The next future gets the next range in order, wrapping at 64 bits |
| Packets.CommandRoundTrip | bmchat/protocol/packets.py:20-31 | An ASCII command survives the header exactly when it has at most twelve bytes and does not end in NUL |
| Packets.HeaderRoundTrip | bmchat/protocol/packets.py:20-31 | A parsed header reports the magic number, command field, length and checksum of its packet |
| Packets.HeaderOfParsed | bmchat/protocol/packets.py:20-31 | A header of the network with an ASCII command is byte for byte the one written for what it reports |
| Packets.AssembleInventory | bmchat/protocol/packets.py:108-112 | The loop writes the count and then the hashes |
| Packets.ParseInventory | bmchat/protocol/packets.py:122-134 | The loop reads as many whole hashes as are announced and there, at most 50000, or fails on the count |
| Packets.InventoryRoundTrip | bmchat/protocol/packets.py:108-134 | Parsing gives back the hashes written, the first 50000 of them, and bounds the payload |
| AckLoop.AckSurvivesRelay | bmchat/core/client.py:1238-1254 | The packet made for a message passes every check of the recipient's relay at any later time and comes out as the sender's object, byte for byte |
| AckLoop.AckIsAccepted | bmchat/net/manager.py:869-883 | The network layer lets the object in exactly while it is at most an hour past its expiry and not too far ahead |
| AckLoop.AcceptedIff | bmchat/net/manager.py:869-883 | Of every object there can be, exactly those are let in that are not too large, lie within both skews and carry the work for the rest of their life |
| AckLoop.AcceptedIsBuilt | bmchat/net/manager.py:869-883 | Nothing else is let in |
| AckLoop.RelayedIff | bmchat/core/client.py:1238-1254 | Exactly that is relayed which a packet carries under the magic number, the command "object", its own length and checksum, and which has enough work |
| AckLoop.OnlyTheAckMarks | bmchat/core/client.py:1114-1145 | With any number of watches, also several for one message, an object marks a message exactly when from byte 16 on it is an acknowledgement watched for that message; it uses up that watch and no other |
| AckLoop.AckLoopCloses | bmchat/core/client.py:1923-1952 | A message that carries the packet is read; the packet found in it relays to the acknowledgement; and that object coming back marks the message |
| Consistency.LoopIsPossible | bmchat/core/client.py:1923-1952 | The hypotheses of the acknowledgement loop and of the message round trip hold together, for a toy cryptography and any watch value |
| AckLoop.SameTailSameKind | bmchat/protocol/objects.py:71-82 | Bytes from 16 on fix object type and version |
| Delivery.StepKeepsSound | bmchat/core/client.py:1874-1921 | Every step keeps: at most one thread holds a message, it is marked in flight exactly then, and at most three retries are counted |
| Delivery.StepKeepsBudget | bmchat/core/client.py:1783-1830 | Every step keeps the count of announcements made or still possible within one, the retries paid and the stale starts |
| Delivery.RunKeepsBudget | bmchat/core/client.py:1651-1672 | The same over every run of steps |
| Delivery.SilencedStaysSilent | bmchat/core/client.py:1651-1672 | Once its row is deleted, or its worker lost to an exception, a message is announced only by threads already past the final status check |
| Delivery.BoundIsAttained | bmchat/core/client.py:1512-1534 | For every n a run with n stale starts announces the message 4 + n times before its first acknowledgement |
| Delivery.BoundIsAttainedByClient | bmchat/core/client.py:1512-1534 | The same in the history of a whole client that starts empty and sends one message |
| Delivery.BlocksSettle | bmchat/core/client.py:1512-1534 | Over any history in which scans, immediate sends and final checks are not interrupted, no thread is left in between and nothing is stale |
| Delivery.FourAnnouncements | bmchat/core/client.py:502-534 | In such a history every message is announced at most four times before its first acknowledgement |
| Delivery.PromptScanIsNotStale | bmchat/core/client.py:1512-1534 | A scan that publishes at once what it read, with nobody else publishing, makes no stale start |
| Delivery.EventKeepsGood | bmchat/core/client.py:1114-1145 | Every event of the whole client keeps soundness and budget of every message |
| Delivery.AnnouncementBound | bmchat/core/client.py:502-534 | In any run of a process a message is announced at most four times before its first acknowledgement, plus once per stale start, with at most one worker, and the in-flight mark held exactly as long as a thread holds it |
| OutgoingClient.Client.SendMessage | bmchat/core/client.py:1555-1625 | Refuses exactly a text that is no version 4 address or a body over the limit, with the reason, and then changes nothing; otherwise stores a row under an id never used before, delivers a message to oneself at once, and asks for keys it does not have with the tag of the address |
| OutgoingClient.Client.PowAndPublish | bmchat/core/client.py:1874-1921 | The in-flight gate starts a publication exactly when the keys are usable and nobody holds the message, performs the steps Enter and SetSending and stamps the expiry; a message to oneself is settled instead |
| OutgoingClient.Client.SendQueued | bmchat/core/client.py:1512-1534 | Of the rows found waiting the first five, or none of several while offline, each perform Pick and the gate, and are stamped exactly when they start; no other message is touched |
| OutgoingClient.StampedAt | bmchat/core/client.py:1904-1909 | After a scan a message carries the new expiry exactly when its publication started, and otherwise the old one |
| OutgoingClient.Client.FinishMessageSend | bmchat/core/client.py:1651-1672 | Announces exactly when the row is still waiting, and performs Check, Announce and RecordSent |
| OutgoingClient.Client.FailPow | bmchat/core/client.py:2001-2032 | Releases the message and performs the steps of a failure |
| OutgoingClient.Client.ClaimResendSlot | bmchat/core/client.py:1783-1789 | Grants a slot exactly while fewer than three are used |
| OutgoingClient.Client.ReadStatus | bmchat/core/client.py:1802-1811 | A message may be sent again exactly while it is failed, being sent or waiting for a key |
| OutgoingClient.Client.Retry | bmchat/core/client.py:502-534 | With the recipient's keys known and the own identity gone nothing happens; otherwise a retry costs a slot, and publishes again or goes back to waiting |
| OutgoingClient.Client.ResendToOneself | bmchat/core/client.py:1832-1841 | A stuck message to oneself is delivered without a slot |
| OutgoingClient.Client.GiveUp | bmchat/core/client.py:1674-1686 | A worker that gives up early settles the message as failed whatever its status and releases it |
| OutgoingClient.Client.WatchAck | bmchat/core/client.py:1701-1709 | Adds the watch for an acknowledgement just built and keeps the others, also those of earlier attempts |
| OutgoingClient.Client.MaybeMarkAck | bmchat/core/client.py:1114-1145 | Does with the client's tables what the acknowledgement loop says of an incoming object: a message type 1 object whose bytes from 16 on are watched uses up the watch and acknowledges the message |
| OutgoingClient.MarkAckIsAckSeen | bmchat/core/client.py:1114-1145 | That is the event AckSeen of the state machine, or nothing |
| OutgoingClient.Client.AnnouncementsAreBounded | bmchat/core/client.py:1651-1672 | The announcements really made for a message, counted in the client's list, are at most four and one more per stale start before its first acknowledgement |
| OutgoingClient.Client.PruneAckWatch | bmchat/core/client.py:1438-1467 | Drops exactly the watches past their deadline; exactly their messages still marked sent have failed |
| OutgoingClient.Client.ExpiredWatches | bmchat/core/client.py:1438-1467 | Lists exactly the watches past their deadline, each once |
| OutgoingClient.Client.FailUnacknowledged | bmchat/core/client.py:1438-1467 | Fails exactly the listed messages still marked sent |
| OutgoingClient.Client.RetryStuckSending | bmchat/core/client.py:490-500 | Performs the step Unstick on every message |
| OutgoingClient.Client.DeleteMessages | bmchat/core/database.py:557-571 | Removes exactly the rows of the deleted conversation, with their expiries |
| ObjectSync.BeforeTotal | bmchat/net/manager.py:823-843 | The order of evicted keys is total |
| ObjectSync.BeforeIs | bmchat/net/manager.py:838 | A key is before another when it is a front part of it or smaller where they first differ |
| ObjectSync.StepKeepsInv | bmchat/net/manager.py:724-759 | Every section keeps: each object lies under its own hash, has a time of receipt, and inventory and requests stay within their limits |
| ObjectSync.RunKeepsInv | bmchat/net/manager.py:724-759 | The same in every state of every interleaving |
| ObjectSync.OnlyForgetting | bmchat/net/manager.py:750-759 | A known hash is forgotten only by a wipe or a store that trims more than 200000 of them |
| ObjectSync.OnlyDropping | bmchat/net/manager.py:823-843 | An object is dropped only by a wipe, or as the oldest when a full inventory takes another |
| ObjectSync.AcceptedOnce | bmchat/net/manager.py:893-933 | For every interleaving, between two deliveries of one object that both pass the dedup gate there is a wipe or a trim |
| ObjectSync.AnnouncedIsNotNew | bmchat/net/manager.py:952-989 | An object this node has announced does not pass the gate until it is forgotten |
| ObjectSync.AnnouncingIsNotNew | bmchat/net/manager.py:960-999 | Between storing and remembering it passes only if the inventory has dropped it again |
| ObjectSync.AllNotedKeepsFirst | bmchat/net/manager.py:1039-1050 | Noting requests adds exactly the new hashes and leaves the times of the old ones |
| ObjectSync.FirstAskedIsFixed | bmchat/net/manager.py:1039-1058 | No section changes when a pending object was first asked for |
| KeyExchange.KeyDesk.OnGetpubkey | bmchat/core/client.py:1147-1166 | Answers for exactly the identity that is the first with the tag asked for, lives in the stream of the request and was not asked for within five minutes, and notes the time |
| KeyExchange.KeyDesk.OnPubkey | bmchat/core/client.py:1168-1198 | Learns keys for exactly the first contact whose address reads the publication |
| KeyExchange.RequestIsAccepted | bmchat/core/client.py:1606-1617 | A request made from an address is let in by every node exactly until an hour after it expires, and carries the owner's tag and stream |
| KeyExchange.PublicationFits | bmchat/protocol/objects.py:95-109 | A publication of keys is always within the size limit |
| KeyExchange.PublicationIsLearned | bmchat/core/client.py:1168-1198 | What the owner publishes gives a sender with the address among the contacts the owner's keys and difficulty |
| KeyExchange.KeyExchangeCloses | bmchat/core/client.py:1147-1198 | The whole exchange: the request made from an address is let in, its owner answers exactly when the tag was not answered within five minutes, and the sender learns the owner's keys |
| Consistency.ExchangeIsPossible | bmchat/core/client.py:1147-1198 | The hypotheses of the exchange of keys hold together, for a toy cryptography |
| NetworkManager.NetworkManager.OldestKey | bmchat/net/manager.py:823-843 | Finds the entry with the least time of receipt and, among equals, the least key |
| ObjectSync.OldestIsLeast | bmchat/net/manager.py:823-843 | The entry evicted was received no later than any other, and is before those received at the same time |
| NetworkManager.NetworkManager.TrimKnown | bmchat/net/manager.py:750-759 | Keeps 150000 of more than 200000 known hashes and otherwise all |
| NetworkManager.NetworkManager.StoreObject | bmchat/net/manager.py:724-748 | Performs the section Store and keeps content addressing and the limit |
| NetworkManager.NetworkManager.PassGate | bmchat/net/manager.py:911-917 | Performs the section Gate and says whether the object is new |
| NetworkManager.NetworkManager.ReceivedObject | bmchat/net/manager.py:893-933 | Of what passes the checks and the rate limit of its peer, delivers exactly a new object, which is then held under its hash, queued for the database and announced; whatever was taken is not new and not pending afterwards |
| NetworkManager.NetworkManager.Admit | bmchat/net/manager.py:869-907 | Checks an object and holds it against the rate limit of its peer, for which only objects that pass the checks count |
| NetworkManager.NetworkManager.Enqueue | bmchat/net/manager.py:761-811 | Queues an object and writes the queue when it is full or late; the database holds every object under its own hash throughout |
| NetworkManager.FiledArchived | bmchat/core/database.py:627-654 | Filing entries keeps the database content-addressed and adds exactly their hashes |
| NetworkManager.NetworkManager.AnnounceObject | bmchat/net/manager.py:952-999 | The object is held and known afterwards, and exactly the established peers other than its source that take part in its stream, where streams are known, are told, each once |
| NetworkManager.NetworkManager.WipeObjects | bmchat/net/manager.py:1512-1529 | Empties all four tables, the queue and the database |
| NetworkManager.FreshIsFresh | bmchat/net/manager.py:1064-1106 | What is picked from an offer is exactly what is new, each hash once |
| NetworkManager.NetworkManager.CollectWanted | bmchat/net/manager.py:1064-1106 | Picks the first new hashes of an offer, as many as the dynamic limit and the room left allow |
| NetworkManager.NetworkManager.LimitIsFifty | bmchat/net/manager.py:1064-1106 | The limit on one offer is fifty thousand or the room left; the smaller limit of a thousand never applies |
| NetworkManager.NetworkManager.RememberPending | bmchat/net/manager.py:1039-1058 | Performs the section AskFor |
| NetworkManager.NetworkManager.CutToLimit | bmchat/net/manager.py:1053-1058 | Drops requests only above the limit, those first asked for earliest |
| NetworkManager.NetworkManager.OnInv | bmchat/net/manager.py:1158-1194 | Within both rate limits, asks the peer for exactly the first new hashes of its offer, each once, in packets of a hundred; recording them evicts no older request and changes none |
| NetworkManager.NetworkManager.InvLimited | bmchat/net/manager.py:1166-1177 | An offer passes exactly when the limit on all peers and then that on its own leave room |
| NetworkManager.NetworkManager.AskForNew | bmchat/net/manager.py:1189-1191 | Picks and records the new hashes of an offer in one go, within the limits, without dropping a request |
| NetworkManager.NetworkManager.SendDelayed | bmchat/net/manager.py:1130-1148 | A delayed request asks for exactly what is still wanted by then, if the peer is still connected |
| NetworkManager.NetworkManager.StalePending | bmchat/net/manager.py:1196-1215 | Returns exactly the requests to repeat, each once, the one asked for longest ago first; afterwards none is too old or already answered |
| NetworkManager.FoundWasAsked | bmchat/net/manager.py:1340-1376 | In a content-addressed table every object found was asked for |
| NetworkManager.CapBlobs | bmchat/net/manager.py:1378-1391 | Returns the longest front part within a hundred objects and 8 MiB, a single larger object being allowed |
| NetworkManager.ReplyWithinLimit | bmchat/net/manager.py:1378-1391 | With objects of the size the network accepts a reply is always within 8 MiB |
| NetworkManager.NetworkManager.OnGetdata | bmchat/net/manager.py:1394-1421 | Within the rate limit, replies with the longest front part of what memory and then the database, or its fallback, hold, and only with objects whose hash was requested |
| NetworkManager.NetworkManager.HeldIsAnswered | bmchat/net/manager.py:1340-1391 | An object asked for and held is in the reply unless the reply stops at a hundred objects or the next would exceed 8 MiB |
| NetworkManager.NetworkManager.SendChunked | bmchat/net/manager.py:1274-1288 | Sends exactly the chunks of a hundred to the destinations in turn, and refreshes exactly the requests whose packet went out |
| NetworkManager.NetworkManager.GroupBySource | bmchat/net/manager.py:1234-1254 | Sorts each hash to its connected source, or to the rest |
| NetworkManager.NetworkManager.ResendPending | bmchat/net/manager.py:1225-1289 | Sends exactly the planned packets, counts the hashes of those that went out and performs the section AskedAgain for them |
| NetworkManager.NetworkManager.RetryPendingGetdata | bmchat/net/manager.py:1291-1323 | A tick asks once each for a thousand stale hashes per connected peer, or for all there are; when every packet goes out the count is the number of hashes and each request was last asked for now |
| Resend.PlanAsksForAll | bmchat/net/manager.py:1225-1289 | Together the packets ask for exactly the selected hashes |
| Resend.InExactlyOnePacket | bmchat/net/manager.py:1225-1289 | Each selected hash is in exactly one packet and nothing else is asked for |
| Resend.PlanIsRouted | bmchat/net/manager.py:1234-1289 | A packet of at most a hundred goes to the connected peer recorded as the source of all its hashes, or in turn to a connected peer with hashes whose sources are not connected |
| Resend.SourceIsAsked | bmchat/net/manager.py:1234-1254 | A selected hash whose recorded source is connected is asked of that source |
| Resend.ChunkAt | bmchat/net/manager.py:1274-1288 | Packet i holds the i-th hundred and goes to the i-th destination in turn |
| Resend.TickAsksForThousands | bmchat/net/manager.py:1304-1319 | The share per peer has no effect: the selection is a thousand per connected peer or all |
| BigInventory.MergedIsUnion | bmchat/net/manager.py:1022-1029 | The list sent is the union of memory and database, each hash once, memory first |
| BigInventory.PeerReadsInventory | bmchat/net/manager.py:1010-1037 | Parsing all payloads and joining them gives exactly that list in order, and each payload is within the reader's limit |
| BigInventory.MergeHashes | bmchat/net/manager.py:1020-1029 | The loop computes the merged list |
| BigInventory.SendInventory | bmchat/net/manager.py:1030-1037 | Sends the payloads in order up to the first that fails |
| RateLimiter.WindowHolds | bmchat/net/manager.py:699-722 | Over any run with monotone time, a stretch between two allowed calls for a key that holds more allowed calls than the limit is strictly longer than the window, while the key stays in the table |
| RateLimiter.LeavesAfterOthers | bmchat/net/manager.py:699-722 | A key leaves the table only after calls for 4096 other keys since it came in |
| RateLimiter.RefusedOnlyWhenFull | bmchat/net/manager.py:699-722 | Over any run a call is refused only when at least the limit of calls for its key was allowed within the window |
| RateLimiter.CallKeepsInv | bmchat/net/manager.py:715-721 | With a positive limit, as all callers give, the table never grows beyond 4096 keys, and every key is listed once in order of insertion |
| RateLimiter.Limiter.RateLimited | bmchat/net/manager.py:699-722 | The method performs one call of the model |
| PeerStore.BackoffBounds | bmchat/net/peers.py:338-361 | For any jitter a penalised peer waits a minute doubled per failure and at most an hour, and no longer than the most that jitter adds; after 3660 seconds nobody waits |
| PeerStore.BackoffIs | bmchat/net/peers.py:336-366 | The exact wait for any cooldown, with the least and the most jitter; without a cooldown nobody waits |
| PeerStore.BackoffIsShort | bmchat/net/peers.py:205-229 | With at most four failures in a row, all the store keeps, nobody waits longer than 1020 seconds |
| PeerStore.ChoiceIsBest | bmchat/net/peers.py:386-411 | The peers chosen are eligible, in order of rank, and maximal for the limit; below the limit nobody eligible is left out |
| PeerStore.PointsDecide | bmchat/net/peers.py:312-334 | Of two peers free to be dialed the one with more points comes first, a point of rating counting one, a past offer two and each of up to eight failures minus one; with as many points the one seen longer ago |
| PeerStore.OfferIsWorthTwo | bmchat/net/peers.py:312-334 | A past offer outweighs less than two points of rating or two failures, and is outweighed by more |
| PeerStore.FailuresInRow | bmchat/net/peers.py:205-229 | Any failures in a row cost a point each and are counted; the one that makes five drops the peer and nobody else |
| PeerStore.ChosenHaveWaited | bmchat/net/peers.py:386-411 | Every chosen peer with failures or a negative rating has waited out its backoff |
| PeerStore.FailureDelays | bmchat/net/peers.py:205-229 | A failure keeps the peer from being chosen for a minute, doubled for every failure before it |
| PeerStore.Store.Best | bmchat/net/peers.py:386-411 | Walking down the ranking computes that choice |
| PeerStore.Store.Add | bmchat/net/peers.py:157-198 | A valid address is noted as seen, an invalid one changes nothing; over the limit the worst rated go, and no key comes twice |
| PeerStore.Store.EvictWorst | bmchat/net/peers.py:193-198 | Every peer dropped is rated no better than every peer kept, and the limit is met exactly |
| PeerStore.Store.RecordFailure | bmchat/net/peers.py:205-229 | The fifth failure in a row drops the peer and only it; earlier ones cost rating and are counted |
| PeerStore.Store.RecordSuccess | bmchat/net/peers.py:231-236 | A success ends the run of failures and raises the rating up to 10 |
| PeerStore.Store.RecordInv | bmchat/net/peers.py:238-255 | An offer marks its peer, if the store has it, as productive and changes no rating |
| PeerStore.Store.RecordMute | bmchat/net/peers.py:257-275 | A mute peer loses two points and nobody else changes |
| PeerStore.PutKeeps | bmchat/net/peers.py:157-198 | Setting an entry changes no other |
| Sorting.SortSorts | bmchat/net/peers.py:389-393 | Sorting permutes, orders, and keeps elements that compare equal in their order |
| Connections.StepKeepsBudget | bmchat/net/manager.py:420-443 | Every step keeps connections and dials still to come within the budget |
| Connections.RunKeepsBudget | bmchat/net/manager.py:450-468 | However dials, handshakes, departures and evictions interleave, with at most k ticks at once connections never exceed the cap and max for each further tick; one tick at a time keeps to the cap |
| Connections.BudgetIsReached | bmchat/net/manager.py:1456-1482 | For every k and max a run of overlapping ticks reaches that bound |
| Connections.DialsAreRun | bmchat/net/manager.py:399-413 | Dialing new peers in turn is a run of the state machine |
| Connections.TickIsRun | bmchat/net/manager.py:450-468 | A whole tick is a run of the state machine, whatever other ticks are under way |
| Connections.LeavingIsRun | bmchat/net/manager.py:583-596 | Connections leaving in turn are a run of the state machine |
| Connections.Pool.EnsureConnections | bmchat/net/manager.py:450-468 | A tick dials the first unconnected re-sync candidates and then the first of the store's choice, up to the maximum of established connections and the cap, and stops short of both only when every peer of the store is connected or waits out its backoff; every attempt is recorded; the tick is a run of the state machine |
| Connections.PreferredJoins | bmchat/net/manager.py:387-396 | Peers dropped for a re-sync are tried in the order they were dropped, those the store has lost left out |
| Connections.GoalIs | bmchat/net/manager.py:420-438 | The goal of a tick is zero exactly when the maximum is established or the cap reached, and otherwise reaches one of them |
| Connections.Pool.SpawnAll | bmchat/net/manager.py:444-463 | Dials exactly the first unconnected candidates |
| Connections.Pool.SpawnCandidate | bmchat/net/manager.py:399-413 | Dials exactly a peer not connected yet |
| Connections.Pool.PruneConnections | bmchat/net/manager.py:598-618 | Keeps exactly the healthy connections, and of those no more than the cap, closing the oldest; the store records exactly the stalled handshakes and mute peers; the prune is a run of departures of the state machine |
| Connections.Pool.TrimOverCap | bmchat/net/manager.py:583-596 | Closes the oldest connections down to the cap |
| Connections.Pool.EvictIfStalled | bmchat/net/manager.py:528-569 | Evicts exactly a live connection that is not healthy, and records a failure for a stalled handshake, muteness after a minute, and nothing otherwise |
| Connections.DeadRecordNothing | bmchat/net/manager.py:598-610 | Connections whose thread has ended lead to no record in the store |
| Connections.MuteNeedsALatePrune | bmchat/net/manager.py:489-569 | A useless peer is reported mute only if no prune came by for more than thirty seconds |
| TextWrap.FitLongWord | bmchat/gui/app.py:725-741 | The two loops compute the cut, which lies within the word |
| TextWrap.CutFits | bmchat/gui/app.py:725-741 | The piece cut off a word of less than 8192 characters fits, unless it is a single character |
| TextWrap.CutIsLong | bmchat/gui/app.py:725-741 | From where the search starts to grow it takes in the characters that fit, and stops short of the width only after eight |
| TextWrap.MonospaceCut | bmchat/gui/app.py:725-741 | With characters of one width the piece is exactly as long as the width allows |
| TextWrap.ParagraphKeepsText | bmchat/gui/app.py:744-764 | The lines of a paragraph hold all its non-space characters in order |
| TextWrap.ParagraphFits | bmchat/gui/app.py:744-764 | For any measure no line of plain wrapping is too wide, unless it is a single character |
| TextWrap.LineIsFull | bmchat/gui/app.py:744-764 | A line of plain wrapping takes all the words that fit |
| TextWrap.WrapLines | bmchat/gui/app.py:744-764 | The loops compute plain wrapping, and end |
| TextWrap.SummedIsMeasured | bmchat/gui/app.py:790-819 | For a steady measure, summing widths wraps every text at every width as measuring does |
| TextWrap.HarmShows | bmchat/gui/app.py:790-819 | A word that makes a line's measured and summed widths differ, beyond any width the line had before, is broken off by one wrapper and not by the other at a given width |
| TextWrap.AgreeIffSteady | bmchat/gui/app.py:744-819 | The cached wrapper and the plain one agree on every text at every width if and only if the measure is steady: adding a word to a line, measuring and summing agree, or stay within a width the line had before |
| TextWrap.SteadyIffJoinAdditive | bmchat/gui/app.py:744-819 | Additivity where words are joined is enough to be steady, and for measures that are never negative and never shrink when a word is added it is exactly that |
| TextWrap.KerningDiffers | bmchat/gui/app.py:790-819 | A text and a width at which a measure that kerns across a space, and so is not steady, makes the two wrappers differ |
| TextWrap.LigaturesAgree | bmchat/gui/app.py:790-819 | A measure that sets two letters of a word as one is not additive, and the two wrappers still agree everywhere |
| TextWrap.WidthCache.CachedMeasure | bmchat/gui/app.py:767-777 | Returns the width measured and keeps the cache sound through evictions |
| TextWrap.WidthCache.ChopLongWord | bmchat/gui/app.py:780-787 | Cuts a word up exactly as plain wrapping does |
| TextWrap.WidthCache.WrapLinesCached | bmchat/gui/app.py:790-819 | With a sound cache returns the lines that summing gives, which for a steady measure are those of plain wrapping, keeps the cache sound, and bounds its size |

## Left out

- AnnouncementBound: speaks of the time up to the first acknowledgement only, because two writers
  (bmchat/core/client.py:1627-1634 and 1674-1686) set a status without reading it and can overwrite an acknowledged one.
- SilencedStaysSilent: a worker lost to an exception before its proof of work keeps the message marked in flight;
  the model has this as the step Crash and does not claim that such a mark is released.
- FinishMessageSend: the method performs its three steps in one go; other threads may come between them only in the
  state machine, where the steps are separate.
- MessageRoundTrip, PubkeyRoundTrip and BroadcastRoundTrip: versions of sender keys other than 4, since the builders
  write no other; how other versions are read is `ReadSenderOf`.
- EncodeOfDecode: says nothing of versions 2 and 3, whose key hashes may be written with or without leading zeros,
  so that several texts stand for one address.
- SendMessage: what the inbox shows of a message to oneself; of its row only the id is taken.
- SendQueued: publishes its rows in one go; other threads may come between them only in the state machine.
- OnGetpubkey: the proof of work and the announcement of what is published, which any object goes through.
- ReceivedObject: when a connection was last useful and how far a re-sync has come, which are only noted.
- AnnounceObject: whether the packet to a peer that is told can be sent, which has no consequence.
- OnInv: what the store of peers notes about an offer.
- AckSurvivesRelay: the memory of packets already relayed (bmchat/core/client.py:1225-1236), which only suppresses
  repetitions.
- EnsureConnections: runs uninterrupted; other threads may come between its reads and dials in the state machine.
- RateLimited: runs as one step, as if under a lock; the code calls it from several threads without one.
- Solve: looks at a bounded number of rounds, any number; whether the pool ever delivers a result is up to the workers.
- SearchRange: the counter of trials shared with the user interface.
- ResendPending: runs as one step; other threads may come between two packets, which the section AskedAgain, one per
  packet, allows in the state machine.
- WrapLinesCached: identifies a font by its number; that a number is reused after its font is gone, which would make
  the cache unsound, is excluded by the hypothesis that the cache is sound.
- The addresses of peers in version and addr packets, and the order of hashes within a tick, which is random.
- The inbox, chat, contacts and subscriptions as tables.
- The four-day sweep of acknowledgement watches, which drops what pruning drops, and the eviction of a full inventory
  by the maintenance thread, which by the limit on the inventory never finds anything to do.
- Loading and saving of peers and settings, DNS seeds, proxies, sockets, threads as such, SQLite, notifications,
  updates.
- AES, HMAC, elliptic curves, PBKDF2, SHA-512 and RIPEMD-160 themselves.
- Rounding of floating point numbers: times, ratings and backoff are real numbers.
- The life of the process pool around the parallel search, and the progress it reports.
- The windows, themes, commands and strings of the user interface, which would only add easy members.
