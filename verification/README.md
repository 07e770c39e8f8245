# Verified model of the Mumble client core

This project models the hand-written protocol machinery of the FancyMumble client and proves what it
keeps, loses and guarantees. Foreign code is a parameter: AES is any family of block permutations,
protobuf bodies are any serialization that is lossless on the messages used, Opus and DeepFilterNet are
functions whose outputs are inputs of the model, clocks and sockets are answers supplied with each event.

Each component has the same three layers. A state machine over plain values says what one step does. A
class or method with the source's own fields and loops is proved equal to it, step for step. Lemmas then
prove what holds of every input, every run or every reachable state.

| file | component |
|---|---|
| `Bytes.dfy` | bytes, exclusive or, big- and little-endian numbers, the carry loop |
| `Ocb2Block.dfy`, `Ocb2Mode.dfy`, `Ocb2Formula.dfy` | GF(2^128) offsets, the OCB2 mode over any permutation, its closed form |
| `Ocb2Receiver.dfy`, `Ocb2Stream.dfy`, `Ocb2CryptState.dfy` | nonce reconstruction and replay history, whole packets and streams, the crypt state object |
| `UdpReader.dfy` | the UDP reader task with resync requests |
| `EventLoop.dfy`, `EventLoopEffects.dfy`, `EventLoopNonces.dfy` | UDP life cycle, force-TCP, codec switching, shutdown; what the handler sees; nonces over whole runs |
| `FancyCodec.dfy` | versions, user table, tunnelling of extension messages |
| `TcpFraming.dfy` | control-message frames and stream reassembly |
| `AudioCodec.dfy` | varint, legacy audio packet, tunnel formats |
| `Mixer.dfy`, `Denoiser.dfy`, `Pipeline.dfy` | speaker buffers, hop ring, talk framing and loss concealment |
| `Fuzzy.dfy`, `PingStats.dfy`, `Provider.dfy` | fuzzy matching, running statistics, message history |

Where the code and its own documentation disagree, the code is modelled, and the difference is a result:

- The history fill is documented as one the first check always passes. It also meets the byte that the
  first carry produces when byte 1 of the nonce is 0x7F or 0xFF. `InOrderStreamIff` shows that a lossless
  stream is delivered whole if and only if that is not the case or the stream ends before the carry, and
  `FrozenForever` that the nonce then never moves again without a resync.
- `PacketStats::late` is documented as a count. It is 0 or 1: `CountersMean`.
- `set_decrypt_iv` keeps the history. Resyncs are harmless as long as no event returns to an earlier
  epoch, an epoch being the nonce without byte 0 (`NoReplay`); going back and forth between two accepts a
  nonce twice, whatever the state and the nonce (`BackwardResyncForgets`). The exact set of refused packets
  is given by `AcceptedIff`.
- The denoiser promises `hop_size` dry samples first; there are `hop_size - 1` (`ProcessIsDelayLine`).
- The pipeline learns its sequence step from the first two packets that arrive. If they are k packets
  apart, later losses are concealed right if and only if k is 1 or each has at least 4k-1 packets
  (`StepLearnedIff`). A talk spurt whose opening frame fails to encode can send a terminator alone
  (`FailedOpening`); `TalkIsFramedIff` says exactly when packets are framed.
- Paging back through a history finds its place by message id. It reaches the whole history if and only
  if every message it pages from is the first with its id (`WalkCollectsAllIff`).
- A frame with a payload over 8 MiB is written but never read back (`FrameRoundTripIff`), and a legacy
  packet carries its payload's length modulo 0x2000 (`LegacyRoundTrip`).

## Model

| member | source | states |
|---|---|---|
| `Bytes.IncrementFrom` | crates/mumble-protocol/src/transport/ocb2.rs:462-469 | The in-place carry loop over a byte array computes `Incremented` of the tail and leaves the bytes before it alone |
| `Bytes.IncrementedValue` | crates/mumble-protocol/src/transport/ocb2.rs:147-153 | The carry loop adds one to the little-endian value, and wraps to zero only from the largest value |
| `Ocb2Block.S2` | crates/mumble-protocol/src/transport/ocb2.rs:287-293 | The in-place byte loop computes `Doubled` |
| `Ocb2Block.S3` | crates/mumble-protocol/src/transport/ocb2.rs:295-301 | The in-place loop, which reads bytes it has not yet changed, computes the block xored with its doubling |
| `Ocb2Block.XorInPlace` | crates/mumble-protocol/src/transport/ocb2.rs:309-313 | The in-place loop xors a block into another byte by byte |
| `Ocb2Block.DoubledIsTimesX` | crates/mumble-protocol/src/transport/ocb2.rs:282-293 | Read big-endian as a polynomial over GF(2), the doubling is x times the block reduced modulo x^128+x^7+x^2+x+1 |
| `Ocb2Block.TripledIsTimesXPlus1` | crates/mumble-protocol/src/transport/ocb2.rs:295-301 | The tripling is (x+1) times the block in the same field |
| `Ocb2Block.DoubledIsLinear` | crates/mumble-protocol/src/transport/ocb2.rs:287-293 | Doubling an exclusive or is the exclusive or of the doublings |
| `Ocb2Block.DoubledIsInjective` | crates/mumble-protocol/src/transport/ocb2.rs:287-293 | Different blocks have different doublings, so offsets are never merged |
| `Ocb2Mode.OcbEncrypt` | crates/mumble-protocol/src/transport/ocb2.rs:328-395 | The block loop over arrays computes `Seal`, text and tag, for every length |
| `Ocb2Mode.OcbDecrypt` | crates/mumble-protocol/src/transport/ocb2.rs:398-460 | The block loop over arrays computes `Open`, text and tag, for every length |
| `Ocb2Mode.OpenUndoesSeal` | crates/mumble-protocol/src/transport/ocb2.rs:328-460 | For every permutation, nonce and plaintext length, opening the sealed text returns the plaintext and the identical 16-byte tag |
| `Ocb2Mode.SealUndoesOpen` | crates/mumble-protocol/src/transport/ocb2.rs:328-460 | Sealing what was opened returns the ciphertext and the identical tag, so under one nonce the two are mutually inverse |
| `Ocb2Formula.OffsetIsPower` | crates/mumble-protocol/src/transport/ocb2.rs:282-293 | The i-th offset is x^i times the encrypted nonce in the field, as a number |
| `Ocb2Formula.SealIff` | crates/mumble-protocol/src/transport/ocb2.rs:328-395 | Sealing is exactly the mode in closed form, byte by byte over the whole text: block i is x^i L xor E(x^i L xor plaintext block i), the last chunk is xored with E(bit length xor x^m L), and the tag is E of the exclusive or of all blocks, the last filled from that pad, and of (x+1) x^m L |
| `Ocb2Formula.OpenIff` | crates/mumble-protocol/src/transport/ocb2.rs:398-460 | Opening yields exactly the text whose closed form is the ciphertext, and its tag |
| `Ocb2Formula.TagsEqualIff` | crates/mumble-protocol/src/transport/ocb2.rs:361-395 | Under one nonce and for one length two texts have the same tag if and only if the exclusive ors of their blocks agree |
| `Ocb2Formula.OneByteChangesTag` | crates/mumble-protocol/src/transport/ocb2.rs:361-395 | A change of any one byte changes the tag |
| `Ocb2Receiver.CandidateWindow` | crates/mumble-protocol/src/transport/ocb2.rs:193-230 | A packet is opened under a nonce exactly when that nonce has its header byte and is the current one plus 1 with full carry, or lies 1 to 29 before or 2 to 29 after it without changing any byte but the first |
| `Ocb2Receiver.NoReplay` | crates/mumble-protocol/src/transport/ocb2.rs:187-261 | In every run of packets with arbitrary contents and tag verdicts, and of resyncs, that never returns to an earlier epoch, no nonce is accepted twice |
| `Ocb2Receiver.StepRemembers` | crates/mumble-protocol/src/transport/ocb2.rs:232-261 | The invariant behind it: every accepted nonce of the current epoch is in the history, and no step accepts one that was accepted before |
| `Ocb2Receiver.OnlyWrapGoesBack` | crates/mumble-protocol/src/transport/ocb2.rs:194-205 | A packet returns to an earlier epoch only by wrapping the 128-bit counter |
| `Ocb2Receiver.BackwardResyncForgets` | crates/mumble-protocol/src/transport/ocb2.rs:127-131 | From every state and for every nonce, visiting an epoch, another one and the first again by resyncs accepts the nonce twice, so the hypothesis of `NoReplay` is needed |
| `Ocb2Receiver.HistoryIsLastMark` | crates/mumble-protocol/src/transport/ocb2.rs:255-261 | After any run each history entry is byte 1 of the nonce last accepted with that byte 0, or its initial value |
| `Ocb2Receiver.AcceptedIff` | crates/mumble-protocol/src/transport/ocb2.rs:232-261 | After any run an authentic packet in the window is accepted if and only if the nonce last accepted with its byte 0, or the initial entry, differs from it in byte 1 |
| `Ocb2Receiver.FalseReplayNeedsLongLoss` | crates/mumble-protocol/src/transport/ocb2.rs:58-59 | A nonce not accepted before is taken for a replay only by the initial fill or when the last one accepted with its byte 0 is at least 65536 back |
| `Ocb2Receiver.NonceAccounting` | crates/mumble-protocol/src/transport/ocb2.rs:187-272 | Over any run of packets the nonce advances, wraps counted, by packets lost plus packets good minus late ones |
| `Ocb2Receiver.CountersMean` | crates/mumble-protocol/src/transport/ocb2.rs:263-272 | The good counter counts accepted packets; the late counter becomes 1 at the first late one and then stays |
| `Ocb2Receiver.SentRepeatsIff` | crates/mumble-protocol/src/transport/ocb2.rs:147-153 | Counting from one key setup, two packets are sealed under the same nonce exactly when their numbers differ by a multiple of 2^128 |
| `Ocb2Receiver.InOrderStep` | crates/mumble-protocol/src/transport/ocb2.rs:114-120 | In an in-order stream the next packet is accepted and the history keeps its shape, up to the first carry if the fill collides, otherwise always |
| `Ocb2Receiver.CarryRefused` | crates/mumble-protocol/src/transport/ocb2.rs:118-120 | For the two colliding values the packet that first carries into byte 1 is refused |
| `Ocb2Receiver.FrozenForever` | crates/mumble-protocol/src/transport/ocb2.rs:194-236 | From then on the nonce never moves again, whatever packets arrive |
| `Ocb2Stream.DeliveredIff` | crates/mumble-protocol/src/transport/ocb2.rs:174-275 | A packet sent under a nonce in the window is delivered with its plaintext exactly when the history does not hold its byte pair |
| `Ocb2Stream.DeliversOnlySealed` | crates/mumble-protocol/src/transport/ocb2.rs:174-261 | Of arbitrary datagrams a text is delivered if and only if the datagram is exactly the packet of that text sealed under the one nonce in the window with its header byte, and the history does not hold the byte pair |
| `Ocb2Stream.PacketLayout` | crates/mumble-protocol/src/transport/ocb2.rs:155-172 | The packet is byte 0 of the nonce, three bytes of the tag and the ciphertext, both of the closed form under the 16 little-endian bytes of the nonce |
| `Ocb2Stream.InOrderStreamIff` | crates/mumble-protocol/src/transport/ocb2.rs:114-275 | A lossless in-order stream of any length from any shared nonce is decrypted packet by packet to the sender's plaintexts if and only if byte 1 of the nonce is neither 0x7F nor 0xFF or the stream ends before the first carry |
| `Ocb2Stream.NoNonceOpensTwice` | crates/mumble-protocol/src/transport/ocb2.rs:174-275 | Whatever datagrams are given to `decrypt`, no 16-byte nonce opens two of them unless the counter wraps |
| `Ocb2Stream.NoNonceOpensTwiceBelow` | crates/mumble-protocol/src/transport/ocb2.rs:174-275 | The same with a bound known beforehand: for every list of datagrams with 30 times its length below the distance of the nonce to 2^128 |
| `Ocb2CryptState.Ocb2CryptState.SetKey` | crates/mumble-protocol/src/transport/ocb2.rs:100-123 | Succeeds exactly on 16-byte inputs, and then the receiver is the freshly keyed link and the key is kept; a failure changes neither key, cipher, nonces, history nor counters |
| `Ocb2CryptState.Ocb2CryptState.SetDecryptIv` | crates/mumble-protocol/src/transport/ocb2.rs:127-131 | A 16-byte nonce replaces the nonce and nothing else; any other length is ignored |
| `Ocb2CryptState.Ocb2CryptState.Encrypt` | crates/mumble-protocol/src/transport/ocb2.rs:140-172 | The nonce is incremented as a 128-bit counter and the output is the packet sealed under it |
| `Ocb2CryptState.Ocb2CryptState.Claim` | crates/mumble-protocol/src/transport/ocb2.rs:189-230 | The byte-level branches move the nonce array to the candidate nonce, with late, lost and restore set as the classification says |
| `Ocb2CryptState.Ocb2CryptState.CountAccepted` | crates/mumble-protocol/src/transport/ocb2.rs:263-272 | The counter updates are those of the state machine |
| `Ocb2CryptState.Ocb2CryptState.Decrypt` | crates/mumble-protocol/src/transport/ocb2.rs:174-275 | The object does exactly what `Receive` says; in particular every error leaves nonce, history and counters unchanged |
| `UdpReader.Task.Iterate` | crates/mumble-protocol/src/client.rs:1043-1133 | One iteration of the reader loop, on the real crypt state object, is one step of the reader state machine |
| `UdpReader.Task.Loop` | crates/mumble-protocol/src/client.rs:1023-1134 | The loop runs the state machine to its break and sends requests at exactly the predicted times |
| `UdpReader.RequestsSpaced` | crates/mumble-protocol/src/client.rs:1089-1104 | In every interleaving of datagrams, nonce messages and clock values, two resync requests are at least five seconds apart |
| `UdpReader.RequestIff` | crates/mumble-protocol/src/client.rs:1081-1114 | A request is sent exactly when a datagram fails as the fiftieth or later failure since the last delivery, applied nonce or request, five seconds have passed since the last request and the channel has room |
| `UdpReader.OtherInputs` | crates/mumble-protocol/src/client.rs:1046-1080 | A connection reset changes nothing; a closed socket or channel and other errors stop the task; a failed decryption leaves nonce, history and counters alone |
| `UdpReader.ResyncRepairs` | crates/mumble-protocol/src/client.rs:1046-1053 | After the server's nonce is applied its next packet in the window is delivered, and the failure count is zero, exactly when the kept history does not hold its byte pair |
| `EventLoop.AlwaysConsistent` | crates/mumble-protocol/src/client.rs:247-316 | Every step keeps: sender, reader and resync channel present together with the same usable keys, none under force-TCP, codec equal to `select_codec` of the recorded version, at most four queued nonces |
| `EventLoop.StartsConsistent` | crates/mumble-protocol/src/client.rs:247-262 | So it holds in every run from start-up |
| `EventLoop.ForcedRunSendsNoUdp` | crates/mumble-protocol/src/client.rs:732-776 | While force-TCP holds no datagram is sent, in any run |
| `EventLoop.StoredIsLastSetup` | crates/mumble-protocol/src/client.rs:824-835 | In every run the stored key material is that of the last full crypt setup, whether or not UDP was started with it |
| `EventLoop.GoesByLastTold` | crates/mumble-protocol/src/client.rs:278-290 | In every run that has not ended the codec is that of the last announced version, and TCP is forced exactly if the last toggle said so |
| `EventLoop.RunsUntilEnd` | crates/mumble-protocol/src/client.rs:305-317 | The loop runs on exactly until a rejection, a disconnect command, a closed queue or the end of the TCP reader |
| `EventLoopEffects.EffectsAreDue` | crates/mumble-protocol/src/client.rs:470-621 | In every run each control message, sync, ping, voice packet, transport change and queued nonce shows exactly as often as the wake-ups call for; each voice message is sealed once while there is a session, and tunnelled once if there is none or its send fails |
| `EventLoopEffects.ForcedRunTunnels` | crates/mumble-protocol/src/client.rs:732-776 | While TCP is forced every voice message goes through the tunnel exactly once |
| `EventLoopEffects.TransportIsAsTold` | crates/mumble-protocol/src/client.rs:838-996 | In every run from start-up the transport last told to the handler is the one that audio goes by |
| `EventLoop.ToggleRestarts` | crates/mumble-protocol/src/client.rs:856-931 | Forcing TCP and releasing it restarts UDP from the last full crypt setup, with an empty resync channel and the nonce counter back at its start: the first ping is sealed under the nonce after the stored one again |
| `EventLoopNonces.NonceSharedIff` | crates/mumble-protocol/src/client.rs:904-996 | In every run from start-up, over all sessions: two datagrams share key and nonce exactly when the keys agree and client nonce plus position agree modulo 2^128; within a session positions count up, failed sends included, and for two sessions from the same material it is exactly when the positions agree |
| `EventLoopEffects.DisconnectsOnceAndLast` | crates/mumble-protocol/src/client.rs:455-574 | A run that ends notifies the handler of disconnection exactly once, as its last effect; a run that has not ended has not |
| `EventLoopNonces.AppliedArePrefix` | crates/mumble-protocol/src/client.rs:806-824 | In every run from start-up the nonces the running reader has applied are a prefix of those queued for it, in the server's order, and the at most four others are still waiting; none crosses into another session |
| `EventLoopNonces.NonceMoves` | crates/mumble-protocol/src/client.rs:803-824 | A partial setup puts its nonce behind those waiting if there is a reader and fewer than four wait, and does nothing else; the reader takes the oldest |
| `EventLoop.Client.Start` | crates/mumble-protocol/src/client.rs:904-996 | Starting UDP with wrong key lengths or no socket changes nothing; otherwise it replaces sender, reader and channel together and seals one ping, sent or not |
| `EventLoop.Client.OnCryptSetup` | crates/mumble-protocol/src/client.rs:788-852 | Full setups are stored and start UDP unless TCP is forced; partial ones only queue a nonce while there is room |
| `EventLoop.Client.OnForceTcp` | crates/mumble-protocol/src/client.rs:278-290 | The toggle tears UDP down or starts it from stored keys, and only on a change |
| `EventLoop.Client.OnControl` | crates/mumble-protocol/src/client.rs:473-549 | Control messages update version, codec and transport in the source's order |
| `EventLoop.Client.SendUdpOutput` | crates/mumble-protocol/src/client.rs:591-621 | Each audio message is sealed and goes out by UDP, or goes through the tunnel when there is no sender or its send fails; other messages are passed over |
| `EventLoop.Client.EventLoop` | crates/mumble-protocol/src/client.rs:262-317 | The loop over its mutable variables, interleaved with the reader taking nonces from its channel, produces the state and effects of the state machine's run |
| `FancyCodec.VersionRoundTrip` | crates/fancy-utils/src/version.rs:5-15 | Decoding an encoded version returns its three parts |
| `FancyCodec.VersionOrder` | crates/fancy-utils/src/version.rs:5-7 | Numeric order of encoded versions is lexicographic order of versions |
| `FancyCodec.WideningKeepsOrder` | crates/mumble-protocol/src/state.rs:367-378 | Widening a legacy version number keeps the order, so protobuf audio is chosen exactly from 1.5 on |
| `FancyCodec.UpdatesKeepSessions` | crates/mumble-protocol/src/state.rs:268-302 | In every state reached by user updates and removals each user is filed under its own session |
| `FancyCodec.TableIsLastSaid` | crates/mumble-protocol/src/state.rs:268-302 | The table holds of each session exactly the last channel and name given since it appeared, and no removed session |
| `FancyCodec.ServerState.ApplyUserState` | crates/mumble-protocol/src/state.rs:268-297 | Absent fields keep their value, unknown sessions are created, messages without a session change nothing |
| `FancyCodec.ServerState.RemoveUser` | crates/mumble-protocol/src/state.rs:300-302 | Exactly the one session is removed |
| `FancyCodec.ReceiversExact` | crates/mumble-protocol/src/fancy_codec.rs:253-298 | In every reachable state and iteration order: typing, watch and untargeted signals go to exactly the others in the channel of our own user, a key distribution to exactly the others in the channel it names, each once, and a targeted signal to its target alone |
| `FancyCodec.ParseDecimal` | crates/mumble-protocol/src/fancy_codec.rs:175-203 | The decimal type id in the envelope parses back to the id, for every 16-bit id |
| `FancyCodec.ParseCases` | crates/mumble-protocol/src/fancy_codec.rs:200-203 | A plus sign is passed over, no digits and numbers over 65535 are refused |
| `FancyCodec.ParseNeedsDigits` | crates/mumble-protocol/src/fancy_codec.rs:200-203 | Any other character makes the type id invalid |
| `FancyCodec.RelayRoundTrip` | crates/mumble-protocol/src/fancy_codec.rs:153-246 | The envelope carries exactly the serialized message, its type id behind the prefix and the receivers; relayed with a stamped sender it unwraps to the message with only a missing actor filled in; wrapping fails exactly when there are no receivers |
| `FancyCodec.DecodeLeavesOthers` | crates/mumble-protocol/src/fancy_codec.rs:187-222 | Whatever is not an envelope comes through unchanged: other messages, other data ids, invalid type ids, missing or unreadable data |
| `FancyCodec.CodecDelivers` | crates/mumble-protocol/src/fancy_codec.rs:57-130 | For every server version and message: sent as it is if the server is new enough for it or it is a standard message; otherwise dropped if there is nobody to relay to; otherwise wrapped for exactly its receivers, each of whom gets it back with only a missing actor filled in |
| `FancyCodec.FallbackIffRelayable` | crates/mumble-protocol/src/fancy_message_support.rs:70-145 | The table allows the tunnel for exactly the messages the tunnel can address |
| `FancyCodec.NativeIsMonotone` | crates/mumble-protocol/src/fancy_codec.rs:57-125 | What is sent natively to one server version number, of any 64-bit form, is sent natively to every larger one |
| `FancyCodec.NativeFrom` | crates/mumble-protocol/src/fancy_codec.rs:57-125 | Signals and key distributions go natively from 0.2.12 on, typing from 0.2.18, watch from 0.2.20, in the order of versions; standard messages always |
| `TcpFraming.FrameRoundTripIff` | crates/mumble-protocol/src/transport/codec.rs:17-56 | A frame of any length decodes to its message, leaving exactly what follows, if and only if the payload is at most 8 MiB; also where the 32-bit length field wraps |
| `TcpFraming.FrameLayout` | crates/mumble-protocol/src/transport/codec.rs:17-29 | A frame is the big-endian type id in 2 bytes, the big-endian length in 4, and the payload |
| `TcpFraming.DecodesByHeader` | crates/mumble-protocol/src/transport/codec.rs:32-56 | Any bytes: fewer than six wait, a length over 8 MiB fails and consumes nothing, otherwise the frame is waited for and consumed whether or not it deserializes |
| `TcpFraming.PrefixNeedsMore` | crates/mumble-protocol/src/transport/codec.rs:33-49 | Every proper prefix of a frame asks for more data |
| `TcpFraming.DecodeExtends` | crates/mumble-protocol/src/transport/codec.rs:32-56 | Bytes arriving later never change a decision already made, error or message |
| `TcpFraming.ParseFrames` | crates/mumble-protocol/src/transport/codec.rs:17-56 | The frames of any list of messages followed by an unfinished one parse to the list and the unfinished part |
| `TcpFraming.TcpReader.Recv` | crates/mumble-protocol/src/transport/tcp.rs:156-167 | The receive loop returns the first message of all pending bytes however they are cut, and consumes exactly it; an empty read ends it |
| `TcpFraming.DeliveredUpToEmpty` | crates/mumble-protocol/src/transport/tcp.rs:156-167 | Reads are taken one after the other up to an empty one, and nothing behind it |
| `TcpFraming.TcpReader.ReadAll` | crates/mumble-protocol/src/client.rs:349-366 | The reader task returns what parsing the whole stream in one piece returns, errors and leftover included, for arbitrary bytes |
| `TcpFraming.Reassemble` | crates/mumble-protocol/src/transport/tcp.rs:156-167 | For every way of cutting the frames of a list of messages into reads, exactly the list comes back in order and exactly the unfinished suffix is kept |
| `AudioCodec.Write` | crates/mumble-protocol/src/transport/audio_codec.rs:137-170 | Appends the varint bytes of every 64-bit value to the buffer |
| `AudioCodec.ReadWritten` | crates/mumble-protocol/src/transport/audio_codec.rs:58-170 | Reading inverts writing for every 64-bit value and any trailing bytes, consuming exactly the written ones |
| `AudioCodec.PrefixFree` | crates/mumble-protocol/src/transport/audio_codec.rs:58-170 | No varint is a prefix of another value's |
| `AudioCodec.WrittenIsShortest` | crates/mumble-protocol/src/transport/audio_codec.rs:58-170 | No accepted encoding of a value is shorter than the written one |
| `AudioCodec.VarintForms` | crates/mumble-protocol/src/transport/audio_codec.rs:137-170 | The six forms byte by byte |
| `AudioCodec.ReadForms` | crates/mumble-protocol/src/transport/audio_codec.rs:58-135 | Any bytes are read by the same six forms; missing bytes and all other first bytes are refused |
| `AudioCodec.LegacyEncode` | crates/mumble-protocol/src/transport/audio_codec.rs:200-222 | The packet pushed byte by byte is `LegacyPacket` |
| `AudioCodec.LegacyDecode` | crates/mumble-protocol/src/transport/audio_codec.rs:224-282 | The walk with a position computes `LegacyAudio` and never indexes out of range, on any input |
| `AudioCodec.LegacyRoundTrip` | crates/mumble-protocol/src/transport/audio_codec.rs:200-282 | With the session inserted by the server, target modulo 32, frame number and terminator come back, the payload if and only if it is under 0x2000 bytes, positional data and volume adjustment not at all |
| `AudioCodec.LegacyLayout` | crates/mumble-protocol/src/transport/audio_codec.rs:200-222 | The packet is 0x80 plus the target, the frame number, the length with the terminator in bit 13, and the Opus bytes |
| `AudioCodec.LegacyFields` | crates/mumble-protocol/src/transport/audio_codec.rs:224-282 | Of any packet with that layout 32 bits of the session, 13 bits of the length and bit 13 as terminator are read; a length beyond the data is refused |
| `AudioCodec.TunnelRoundTrip` | crates/mumble-protocol/src/transport/audio_codec.rs:294-360 | In either format the dispatch on the header byte finds the right decoder; protobuf brings back everything but the target above 5 bits whenever its body round-trips for this message, the legacy form what it can hold |
| `AudioCodec.TunnelDispatch` | crates/mumble-protocol/src/transport/audio_codec.rs:335-360 | For any data: a first byte below 0x20 means protobuf and is the target if the body has none, 0x80 to 0x9F means a legacy packet, anything else is refused |
| `Mixer.AlwaysCapped` | crates/mumble-protocol/src/audio/mixer.rs:230-386 | In every run of mixer operations and playback drains each buffer holds at most 19200 samples |
| `Mixer.FeedLeaves` | crates/mumble-protocol/src/audio/mixer.rs:124-206 | A successful feed leaves the newest 19200 of old samples, silence limited to the free room, and the frame, of which a ramp touches only the first 240 or 24 samples; other speakers are untouched |
| `Mixer.KeptIff` | crates/mumble-protocol/src/audio/mixer.rs:129-141 | Of a known speaker only a packet more than 10 numbers behind the last one drops the decoder |
| `Mixer.SpeakerAfter` | crates/mumble-protocol/src/audio/mixer.rs:129-178 | After a packet its number and time are recorded; a decoded frame uses up the fade flag and the sample to ramp from, an undecoded one leaves flag and expected number, with silence to ramp from after a gap |
| `Mixer.FrameWithoutGap` | crates/mumble-protocol/src/audio/mixer.rs:179-206 | Without a gap over 8 units the frame is queued faded in from a fresh decoder, ramped from earlier silence, or otherwise unchanged |
| `Mixer.FrameAfterGap` | crates/mumble-protocol/src/audio/mixer.rs:300-359 | A longer gap puts 480 samples of silence per channel and unit, up to 40 units and the room left, before a frame ramped up from silence |
| `Mixer.OtherOperations` | crates/mumble-protocol/src/audio/mixer.rs:230-298 | Playback takes the oldest samples of one speaker; a reset drops one decoder only, a removal also the buffer, a full reset everything |
| `Mixer.InactiveGo` | crates/mumble-protocol/src/audio/mixer.rs:256-276 | A speaker and its buffer go after more than 30 seconds of silence, a buffer without a speaker once empty, nothing else |
| `Mixer.SlackMeans` | crates/mumble-protocol/src/audio/mixer.rs:300-316 | A gap up to the tolerance inserts nothing; a larger one is filled except for what exceeds 40 units |
| `Mixer.WholeFrameUnits` | crates/mumble-protocol/src/audio/mixer.rs:319-324 | A frame of u whole 10 ms units counts u sequence units, for any channel count |
| `Mixer.FrameUnitsFloor` | crates/mumble-protocol/src/audio/mixer.rs:319-324 | Any other frame counts the whole units in it, and at least one; no channels count as one |
| `Mixer.TimeIsConserved` | crates/mumble-protocol/src/audio/mixer.rs:149-178 | For any speaker and any run of operations that does not end its stream, other speakers' packets, resets and removals included: silence and frames added, plus silence cut for want of room, less the excess of frames over their units, equal the advance of the expected sequence number minus the slack |
| `Mixer.TimeFromFirstPacket` | crates/mumble-protocol/src/audio/mixer.rs:124-206 | The same from the first packet of a stream, be it new, restarted or reset: everything is accounted for by the final expected number minus the first |
| `Mixer.NothingCutWhenItFits` | crates/mumble-protocol/src/audio/mixer.rs:336-359 | When silence has room and frames are whole units, nothing is cut and there is no excess, so the samples added alone account for the time |
| `Mixer.SamplesAreConserved` | crates/mumble-protocol/src/audio/mixer.rs:230-386 | In every run of any operations each sample added to a speaker's buffer is still there, was played, or was thrown away |
| `Mixer.AudioMixer.InsertSilence` | crates/mumble-protocol/src/audio/mixer.rs:336-359 | Appends the requested silence up to the free room |
| `Mixer.AudioMixer.PushSamples` | crates/mumble-protocol/src/audio/mixer.rs:361-386 | Appends the frame and drops the oldest samples over the cap |
| `Mixer.AudioMixer.FeedOne` | crates/mumble-protocol/src/audio/mixer.rs:124-207 | The feed, with restart detection, decoder creation, gap fill, fades and every error path, is the state machine's step |
| `Mixer.AudioMixer.RemoveInactiveSpeakers` | crates/mumble-protocol/src/audio/mixer.rs:256-276 | Stale decoders go with their buffers; drained buffers without a decoder go too; nothing else does |
| `Denoiser.SplitIndependent` | crates/fancy-denoiser-deepfilter/src/lib.rs:140-159 | Processing two buffers in turn is processing their concatenation, in state and in output |
| `Denoiser.ProcessIsDelayLine` | crates/fancy-denoiser-deepfilter/src/lib.rs:144-180 | Wet sample i is the dry input for i below hop-1 and then exactly enhanced sample i-(hop-1), over all whole hops of the input |
| `Denoiser.QueuesHoldTheDelay` | crates/fancy-denoiser-deepfilter/src/lib.rs:150-158 | Once the first hop has run the two queues together hold hop-1 samples at every moment |
| `Denoiser.DeepFilterDenoiser.RunHop` | crates/fancy-denoiser-deepfilter/src/lib.rs:161-180 | One hop leaves the ring and its enhancement joins the output queue |
| `Denoiser.DeepFilterDenoiser.Process` | crates/fancy-denoiser-deepfilter/src/lib.rs:144-159 | The in-place loop moves each sample towards its wet value by the attenuation's share of the distance; zero attenuation changes nothing at all |
| `Denoiser.DenoiseAll` | crates/fancy-denoiser-deepfilter/src/lib.rs:144-180 | At full strength a new denoiser leaves the first hop-1 samples as they were and then writes exactly the enhanced stream |
| `Denoiser.DeepFilterDenoiser.SetAttenuation` | crates/fancy-denoiser-deepfilter/src/lib.rs:126-128 | A strength between 0 and 1 is taken as it is and any other moved to the nearer end, so the clamp in processing never changes it |
| `Pipeline.TalkIsFramedIff` | crates/mumble-protocol/src/audio/pipeline.rs:104-144 | Whatever is captured and whichever stages fail, sent packets carry consecutive numbers, and they form a prefix of (Audio+ Terminator)* if and only if every encoded closing frame comes after a speech frame encoded since the last terminator |
| `Pipeline.TalkIsFramed` | crates/mumble-protocol/src/audio/pipeline.rs:104-144 | In particular they do whenever the opening frame of each spurt is encoded |
| `Pipeline.FailedOpening` | crates/mumble-protocol/src/audio/pipeline.rs:120-143 | A speech frame that fails to encode, followed by silence, sends a terminator with nothing to terminate |
| `Pipeline.TickReports` | crates/mumble-protocol/src/audio/pipeline.rs:104-144 | Silence is reported exactly outside a spurt, and a packet is sent exactly for a frame that passes all stages, as a terminator exactly when it ends a spurt |
| `Pipeline.OutboundPipeline.DoTick` | crates/mumble-protocol/src/audio/pipeline.rs:104-144 | The tick over its mutable flag and counter, with every error path, is the state machine's step |
| `Pipeline.OutboundPipeline.Encode` | crates/mumble-protocol/src/audio/encoder.rs:211-226 | A number is consumed exactly when encoding succeeds |
| `Pipeline.InboundPipeline.DetectSequenceGap` | crates/mumble-protocol/src/audio/pipeline.rs:460-483 | The gap and the step learned through the reference are those of `DetectGap` |
| `Pipeline.InboundPipeline.TickPacket` | crates/mumble-protocol/src/audio/pipeline.rs:250-262 | A packet sets out to play its concealment frames and then itself; frames whose decoding, filtering or playback fails are left out, and the number is recorded in any case |
| `Pipeline.FailuresOnlyOmit` | crates/mumble-protocol/src/audio/pipeline.rs:250-272 | In every run, whichever stages fail, the frames set out for are those of a run without failures, so gaps found and step learned do not depend on them |
| `Pipeline.WrittenWhenNothingFails` | crates/mumble-protocol/src/audio/pipeline.rs:250-272 | Without failures everything set out for is written |
| `Pipeline.WrittenIsPlayed` | crates/mumble-protocol/src/audio/pipeline.rs:250-272 | So a run without failures writes exactly what its numbers call for |
| `Pipeline.AllFramesFail` | crates/mumble-protocol/src/audio/pipeline.rs:256-272 | A packet whose frames all fail writes nothing |
| `Pipeline.LateConcealsNothing` | crates/mumble-protocol/src/audio/pipeline.rs:460-483 | A packet that is not newer than the last conceals nothing and teaches no step |
| `Pipeline.StepStays` | crates/mumble-protocol/src/audio/pipeline.rs:460-483 | In every run a learned step is positive and never changes, and the last number is the last packet's |
| `Pipeline.ConcealsLosses` | crates/mumble-protocol/src/audio/pipeline.rs:250-262 | If the first two packets of a constant-step stream arrive, the frames to play are every arriving packet in order, each preceded by one concealment frame per missing packet, at most three |
| `Pipeline.StepLearnedIff` | crates/mumble-protocol/src/audio/pipeline.rs:460-483 | For every stream with a constant step whose first two arrivals are packets 0 and k, the two are played back to back, and all later losses are concealed right if and only if k is 1 or each later loss has at least 4k-1 packets |
| `Pipeline.SingleLossUnnoticed` | crates/mumble-protocol/src/audio/pipeline.rs:466-482 | So for every k above 1 a single packet lost after the second arrival is misplayed |
| `Fuzzy.FuzzyMatchChars` | crates/fancy-utils/src/fuzzy.rs:58-125 | The loop succeeds exactly when at most one character or a third of the pattern is left unmatched, the sixty percent test never deciding; the score is at most 3 per text character plus 15 per unmatched character plus the length ratio |
| `Fuzzy.RunPaysBack` | crates/fancy-utils/src/fuzzy.rs:69-82 | A run of n direct matches pays back n(n+1)-2, and 10 more at the start of a word |
| `Fuzzy.SkipsCost` | crates/fancy-utils/src/fuzzy.rs:94-99 | Each character skipped costs 3 |
| `Fuzzy.TranspositionCosts` | crates/fancy-utils/src/fuzzy.rs:83-93 | Two adjacent characters in the wrong order cost 5 |
| `Fuzzy.WordScores` | crates/fancy-utils/src/fuzzy.rs:65-100 | A one-word pattern behind k other characters scores 3k less what its run and a word start pay back |
| `Fuzzy.Boundaries` | crates/fancy-utils/src/fuzzy.rs:128-130 | Words start behind the 25 white-space characters, underscore, hyphen and full stop |
| `Fuzzy.SubsequenceScans` | crates/fancy-utils/src/fuzzy.rs:65-100 | Every pattern that is a subsequence of the text is matched completely, despite greedy transpositions |
| `Fuzzy.FuzzyScore` | crates/fancy-utils/src/fuzzy.rs:24-53 | Substrings always score their extra length; any other score is within the cutoff; a subsequence whose worst case is within the cutoff is found |
| `PingStats.StatsAreExact` | crates/mumble-protocol/src/state.rs:150-158 | After any sequence of samples the incremental fields are its arithmetic mean and population variance |
| `PingStats.PingTracker.RecordTcpRtt` | crates/mumble-protocol/src/state.rs:150-158 | The in-place update is the step of that recurrence |
| `Provider.WalkCollectsAllIff` | crates/mumble-protocol/src/persistent/provider.rs:403-426 | For every history and page size the walk ends on an empty page, and has then collected the whole history in order if and only if every cursor it should stop at is the first message with its id; otherwise messages are missing |
| `Provider.WalkCollectsSuffix` | crates/mumble-protocol/src/persistent/provider.rs:403-426 | While paging back over cursors that are each the first message with their id, exactly a suffix of the history is collected, each message once and in order |
| `Provider.WalkCollectsAll` | crates/mumble-protocol/src/persistent/provider.rs:403-426 | So with unique ids and any positive page size the whole history is collected |
| `Provider.WindowAround` | crates/mumble-protocol/src/persistent/provider.rs:409-424 | The page before a message that is the first with its id, the message and the page after it are one contiguous stretch of the history |
| `Provider.RepeatedIdMissesMessages` | crates/mumble-protocol/src/persistent/provider.rs:409-416 | A cursor that repeats an older message's id loses messages for good, in every history |
| `Provider.CompositeProvider.ReplaceMessage` | crates/mumble-protocol/src/persistent/provider.rs:361-378 | The volatile store is replaced in first, the persistent one only if it had no match, and the result says whether either had one |
| `Provider.CompositeProvider.StoreMessage` | crates/mumble-protocol/src/persistent/provider.rs:352-359 | A message is appended to exactly the store its channel's mode selects |
| `Provider.ReplacesAtMostOne` | crates/mumble-protocol/src/persistent/provider.rs:92-107 | Across both stores and all channels at most one message changes, one with that id by the same sender, and order and lengths stay |
| `Provider.ReplacesTheFirst` | crates/mumble-protocol/src/persistent/provider.rs:92-107 | Place by place, exactly the first match in the channel's volatile history becomes the replacement, or else the first in its persistent one, and everything else stays |
| `Provider.StoresAtEnd` | crates/mumble-protocol/src/persistent/provider.rs:352-359 | A stored message is the last, and the latest, of its channel; no other place changes |

## Left out

- AES-128, libopus, DeepFilterNet inference, prost and the UDP message body: foreign code, taken as arbitrary functions with the one law needed (permutation, length, lossless).
- Ocb2Receiver.Counted: the packet counters are unbounded here; the source's are 32-bit and overflow after 2^32 packets.
- Mixer.Feed: sequence numbers are unbounded here; the source's are 64-bit and their sums overflow only next to 2^64. Samples are reals, and the decoder is taken to produce 32-bit float frames.
- Pipeline.DetectGap: sequence numbers are unbounded here as well. The short ramp at frame boundaries, which changes sample values only, is not modelled.
- Mixer.Shaped: the values of the fade-in and crossfade ramps are floating-point trigonometry; the model says when each applies and which samples it may touch.
- Fuzzy.FuzzyMatchChars: scores are unbounded here; the source's are 32-bit.
- PingStats.Recorded: over the reals, without rounding.
- UdpReader.Iterated: one clock value per iteration; the decoding of a decrypted datagram and the shared statistics are outside the model.
- EventLoop.Handle: the tasks beside the loop (TCP writer, ping loop, command forwarder) a reader task that ends by itself, and a full or closed outbound channel are not modelled; which ready event the biased select takes is left arbitrary.
- FancyCodec.MessageSupport: message bodies other than the fields the codec looks at are opaque, and the message types it treats alike share one constructor with their wire id.
- The mixer's and the denoiser's plain resets, channel states, permissions, read receipts and the remaining fields of the user table: easy members.
- Commands, TLS set-up, sockets, logging, the Tauri shell and its user interface: plumbing around the modelled core.
- signal-bridge: foreign-function glue whose guarantees rest on a library outside the repository.
