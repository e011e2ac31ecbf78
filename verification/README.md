# SQRKal, ccRTP and libSRTP: a Dafny model

This project models the parts of the SRPP/SQRKal repository, with the ccRTP and libSRTP it bundles, in which a
voice packet is indexed, protected, queued, reported on and padded, and proves what they keep over whole runs.

- `Octets`, `Wrappers`, `Buffers`, `CString`: machine words as bounded integers, exclusive or, network order, octet
  buffers, C strings.
- `SrtpContext`, `SrtpKeystream`, `SrtpPacket`, `SrtpRun`, `SrtpSession`: ccRTP's SRTP, from the 48-bit index guess and the replay
  window up to runs of a sender and a receiver over a lossy channel (section 3.3.1 and Appendix A of RFC 3711).
- `Md5Spec`, `Md5`, `CcMd5`, `Md5Agreement`: two MD5 objects against one fold over blocks (sections 3.1, 3.2 and 3.4
  of RFC 1321), one on 32-bit and one on 64-bit words.
- `SignalingText`, `Handshake`: the HELLO/HELLOACK exchange as two endpoints and a network that may lose, repeat and
  reorder.
- `ReplayDb`, `SrtpTransform`, `LibSrtp`, `LibSrtpRun`, `LibSrtpLossy`, `LibSrtpApi`: libSRTP sessions with their stream list, template
  and replay databases, as values with their runs and as calls on a buffer in place.
- `RecvQueue`, `Members`: the two linked structures of ccRTP, packets on two doubly linked lists at once and a hash
  table with sorted chains threaded onto a creation list.
- `RtcpCompound`, `RtcpReport`, `RtcpText`: control packets, built, checked and read (sections 6.1, 6.5, 6.6 and
  Appendix A.2 of RFC 3550).
- `Cbc`, `AeTransform`: in-place chaining with padding, and authenticated encryption on top.
- `SrppCodec`, `Padding`, `OutQueue`: the SRPP message on the wire, the padding that fills it, and ccRTP's send queue.

`dafny verify dfyconfig.toml` checks everything. AES, the block cipher and the authentication codes are arbitrary
functions (the block cipher an invertible one). Clocks, random numbers, SSRCs and initial sequence numbers are
parameters. A call that would leave its buffer, or shift by more than a word, has no defined outcome in the original:
the model returns `Overrun` or an arbitrary value there, and the results exclude it or hold for every value.

Where the code does less than its comments say, the model follows the code, and the result is an if-and-only-if:

- A loss of 32767 packets, still fewer than 2^15, is survived only in one half of the sequence space.
- A first packet that fails authentication still sets the highest sequence number of a ccRTP context.
- A padded SRTP packet is decrypted over the right length only by coincidence of two octets.
- ccMD5 on 64-bit words leaves the RFC at 2^29 octets, because its second counter word counts carries out of 64 bits.
- When both ends open the SRPP handshake at once, they end with different keys if each reads the other's HELLO.
- libSRTP enters a late index in the wrong bit, so late packets can be protected and accepted again; its guess turns
  the sign of a difference that reaches back over a wrap, so that such packets push the index forward and are not
  recorded either; the SRTCP window misplaces an index that jumps; the SRTCP index
  2^31 collides with the encryption bit; the packet limit stops a single packet.
- A further receiver report starts again with the first source, and the version of the last packet of a compound is
  never checked.
- A BYE reason of 255 octets or more is cut; members that say good-bye twice are uncounted twice.
- CBC decryption does not carry its chain to the next call; authenticated encryption can grow data by 28 octets where
  27 are announced.
- An SRPP payload is lost where its encryption has a zero, or when it leaves no room for padding.

## Model

| member | source | states |
|---|---|---|
| SrtpRun.RunRestoresEveryPacket | 3rd_party/ccrtp-1.7.1/src/rtppkt.cpp:250-355 | Whole runs: every unpadded packet that an order-keeping, lossy channel delivers within reach is accepted and restored octet for octet, over any number of sequence wraps, with refused packets mixed in after the first delivery |
| SrtpRun.GuessesRightIffInReach | 3rd_party/ccrtp-1.7.1/src/CryptoContext.cxx:329-357 | Over a run of deliveries the guess is the sender's index for each packet if and only if every step stays within reach: 32768 packets after a sequence number below 32768, 32767 after any other, and the first delivery before the sender's first wrap |
| SrtpRun.LongestLossDependsOnTheHalf | 3rd_party/ccrtp-1.7.1/src/CryptoContext.cxx:329-357 | Losing fewer than 2^15 packets in a row is not always survived: 32767 losses after sequence number 40000 give a wrong index |
| SrtpRun.RefusalLeavesStateIff | 3rd_party/ccrtp-1.7.1/src/rtppkt.cpp:298-355 | A refused packet leaves the context unchanged, apart from the last guess, if and only if it is not the first packet looked at |
| SrtpRun.RefusedFirstMisleads | 3rd_party/ccrtp-1.7.1/src/rtppkt.cpp:298-355 | A refused first packet numbered 60000 makes the receiver index the sender's packet 10 one rollover too late |
| SrtpRun.SendIndexIsLinear | 3rd_party/ccrtp-1.7.1/src/rtppkt.cpp:250-267 | Packet n of a sender has index roc0 * 2^16 + seq0 + n modulo 2^48 |
| SrtpRun.KeystreamNeverReused | 3rd_party/ccrtp-1.7.1/src/CryptoContext.cxx:174-200 | Packets fewer than 2^48 apart, or of different SSRCs, under one salt use no counter block twice |
| SrtpRun.StaysInStep | 3rd_party/ccrtp-1.7.1/src/rtppkt.cpp:298-355 | Between any two events of such a run the receiver's local index is that of the last delivered packet |
| SrtpRun.DeliveryRestores | 3rd_party/ccrtp-1.7.1/src/rtppkt.cpp:298-355 | One delivery within reach restores the packet and moves the local index to it |
| SrtpRun.NextStep | 3rd_party/ccrtp-1.7.1/src/CryptoContext.cxx:404-427 | From local index m the guess for packet n is right if and only if n - m is within reach, and then the update moves the local index to n |
| SrtpSession.SendAndReceive | 3rd_party/ccrtp-1.7.1/src/rtppkt.cpp:250-355 | From the objects: of the packets a sending queue was given, protected in order, every one the channel delivers within reach comes out of unprotect as it was laid out |
| SrtpSession.ProtectAll | 3rd_party/ccrtp-1.7.1/src/rtppkt.cpp:250-267 | A loop of protect calls on one context gives the wire form of packet n under the n-th rollover counter |
| SrtpSession.UnprotectAll | 3rd_party/ccrtp-1.7.1/src/rtppkt.cpp:298-355 | A loop of unprotect calls on one context is a run, up to the first foreign packet that is not refused |
| SrtpSession.QueueFeedsSender | 3rd_party/ccrtp-1.7.1/src/outqueue.cpp:420-479 | The packets a queue has numbered are those of a sender with consecutive sequence numbers |
| SrtpContext.GuessIsExact | 3rd_party/ccrtp-1.7.1/src/CryptoContext.cxx:329-357 | The guess is the true index i if and only if i lies in the 2^16 indices around the local one, modulo 2^48, with the upper end depending on the half of the sequence space s_l is in |
| SrtpContext.GuessInWindow | 3rd_party/ccrtp-1.7.1/src/CryptoContext.cxx:329-357 | Without a counter wrap, an index in that interval is guessed exactly and the distance computed for it is the true one |
| SrtpContext.GuessAgain | 3rd_party/ccrtp-1.7.1/src/CryptoContext.cxx:329-357 | A second guess for the same packet changes neither state nor index |
| SrtpContext.UpdateKeepsMaximum | 3rd_party/ccrtp-1.7.1/src/CryptoContext.cxx:404-427 | update moves the local index to the larger of itself and the guess, if and only if the packet is not a late one from before a wrap |
| SrtpContext.AdvanceMovesLocal | 3rd_party/ccrtp-1.7.1/src/CryptoContext.cxx:404-427 | A packet ahead and within reach becomes the local index |
| SrtpContext.FirstPacketSeeds | 3rd_party/ccrtp-1.7.1/src/CryptoContext.cxx:404-427 | The first packet fixes s_l under the counter the context was made with, and sets bit 0 of the window |
| SrtpContext.WindowShowsRun | 3rd_party/ccrtp-1.7.1/src/CryptoContext.cxx:404-427 | Over runs that advance by 1 to 63, bit k of replay_window is set if and only if index L - k was accepted |
| SrtpContext.ReplayCheckIsExact | 3rd_party/ccrtp-1.7.1/src/CryptoContext.cxx:359-402 | After such a run an index of the last 64 is admitted if and only if it was not accepted before |
| SrtpContext.CryptoContext.GuessIndex | 3rd_party/ccrtp-1.7.1/src/CryptoContext.cxx:329-357 | The method's new fields and result are those of the guess the lemmas speak of |
| SrtpContext.CryptoContext.CheckReplay | 3rd_party/ccrtp-1.7.1/src/CryptoContext.cxx:359-402 | The check answers by distance and window bit, seeds s_l on the first packet, and admits everything when nothing is secured |
| SrtpContext.CryptoContext.Update | 3rd_party/ccrtp-1.7.1/src/CryptoContext.cxx:404-427 | The new counter, s_l and window are related to the old ones; shifts outside 0 to 63 leave the window arbitrary |
| SrtpKeystream.FillIv | 3rd_party/ccrtp-1.7.1/src/CryptoContext.cxx:185-195 | The three loops fill the vector that the salt, the SSRC and the index determine |
| SrtpKeystream.VectorsDistinct | 3rd_party/ccrtp-1.7.1/src/CryptoContext.cxx:180-195 | The first 14 octets of the vector determine SSRC and 48-bit index, whatever the salt |
| SrtpKeystream.CounterBlocksDistinct | 3rd_party/ccrtp-1.7.1/src/ccrtp/crypto/openssl/AesSrtp.cxx:80-141 | A counter block determines SSRC, index and block number |
| SrtpKeystream.CipherStream | 3rd_party/ccrtp-1.7.1/src/ccrtp/crypto/openssl/AesSrtp.cxx:80-141 | The loop over whole and partial blocks outputs the keystream of the counter blocks in order |
| SrtpPacket.UnprotectUndoesProtect | 3rd_party/ccrtp-1.7.1/src/rtppkt.cpp:250-355 | unprotect accepts and restores an unpadded protected packet whenever the receiver guesses the sender's index |
| SrtpPacket.DecryptRestores | 3rd_party/ccrtp-1.7.1/src/CryptoContext.cxx:168-228 | Decrypting the octets on the wire under the index used gives the packet back |
| SrtpPacket.PaddedLengthExact | 3rd_party/ccrtp-1.7.1/src/rtppkt.cpp:110-133 | A padded packet is decrypted over the right length if and only if the last octet of the tag equals the last octet of the ciphertext, and is then restored |
| SrtpPacket.PaddedLengthCanDiffer | 3rd_party/ccrtp-1.7.1/src/rtppkt.cpp:110-133 | A suite and a padded packet for which the two octets differ |
| SrtpPacket.WireShape | 3rd_party/ccrtp-1.7.1/src/rtppkt.cpp:250-267 | Protection leaves header, sequence number and SSRC alone and puts the tag of the ciphertext behind it |
| SrtpPacket.CryptTwice | 3rd_party/ccrtp-1.7.1/src/CryptoContext.cxx:168-228 | Counter-mode encryption is its own inverse |
| SrtpPacket.SrtpEncrypt | 3rd_party/ccrtp-1.7.1/src/CryptoContext.cxx:168-228 | The in-place loop encrypts exactly the given octets |
| SrtpPacket.OutgoingPacket.Protect | 3rd_party/ccrtp-1.7.1/src/rtppkt.cpp:250-267 | The buffer becomes the wire form under the old counter, which is bumped after sequence number 0xFFFF |
| SrtpPacket.IncomingPacket.Unprotect | 3rd_party/ccrtp-1.7.1/src/rtppkt.cpp:298-355 | Replay check, authentication, decryption and update in this order; a refused packet's octets stay as they are |
| Md5Agreement.DigestBothWays | 3rd_party/ccrtp-1.7.1/src/queue.cpp:268-432 | For every message under 2^29 octets and every split given to each of the two implementations, both digests are the same |
| Md5Agreement.DigestOfParts | src/libSRPP/src/md5.cpp:251-330 | Any sequence of updates followed by finalize gives the RFC 1321 digest of the concatenation |
| Md5Agreement.CcDigestOfParts | 3rd_party/ccrtp-1.7.1/src/queue.cpp:420-432 | Any sequence of putDigest calls followed by commit gives the digest of the concatenation under ccMD5's own length field |
| CcMd5.SameBlocksIffShort | 3rd_party/ccrtp-1.7.1/src/queue.cpp:369-410 | ccMD5 on 64-bit words hashes the blocks RFC 1321 asks for if and only if the message is shorter than 2^29 octets (lengths below 2^61) |
| CcMd5.SameDigestWhenShort | 3rd_party/ccrtp-1.7.1/src/queue.cpp:369-410 | Below 2^29 octets the ccMD5 digest is the RFC 1321 digest |
| CcMd5.LowOfSum | 3rd_party/ccrtp-1.7.1/src/queue.cpp:181-234 | The low half of a 64-bit sum is the 32-bit sum of the low halves |
| CcMd5.LowOfRotation | 3rd_party/ccrtp-1.7.1/src/queue.cpp:181-189 | The low half of the 64-bit rotation is the 32-bit rotation of the low half |
| CcMd5.LowOfMix | 3rd_party/ccrtp-1.7.1/src/queue.cpp:211-234 | The low half of one round step depends on the low halves only and is the 32-bit step |
| CcMd5.FF64 | 3rd_party/ccrtp-1.7.1/src/queue.cpp:211-216 | A first-round step on 64-bit words simulates the 32-bit step on the low halves |
| CcMd5.GG64 | 3rd_party/ccrtp-1.7.1/src/queue.cpp:217-222 | The same for a second-round step |
| CcMd5.HH64 | 3rd_party/ccrtp-1.7.1/src/queue.cpp:223-228 | The same for a third-round step |
| CcMd5.II64 | 3rd_party/ccrtp-1.7.1/src/queue.cpp:229-234 | The same for a fourth-round step |
| CcMd5.FirstRound | 3rd_party/ccrtp-1.7.1/src/queue.cpp:294-309 | Sixteen steps on 64-bit words carry the low halves through the first round |
| CcMd5.SecondRound | 3rd_party/ccrtp-1.7.1/src/queue.cpp:311-326 | The same for the second round |
| CcMd5.ThirdRound | 3rd_party/ccrtp-1.7.1/src/queue.cpp:328-343 | The same for the third round |
| CcMd5.FourthRound | 3rd_party/ccrtp-1.7.1/src/queue.cpp:345-360 | The same for the fourth round |
| CcMd5.Compress64 | 3rd_party/ccrtp-1.7.1/src/queue.cpp:268-367 | The compression on 64-bit words has the 32-bit compression of the low halves as its low half |
| CcMd5.MD5Digest.PutDigest | 3rd_party/ccrtp-1.7.1/src/queue.cpp:420-432 | The message grows by the octets put, whole blocks are hashed, the rest waits in the buffer |
| CcMd5.MD5Digest.Update | 3rd_party/ccrtp-1.7.1/src/queue.cpp:268-367 | A buffer with anything in it is filled up with zeros, hashed and counted; the message grows by the zeros |
| CcMd5.MD5Digest.Commit | 3rd_party/ccrtp-1.7.1/src/queue.cpp:369-410 | The digest is that of the padded message with ccMD5's length octets, and the object starts afresh |
| Md5.MD5.Update | src/libSRPP/src/md5.cpp:251-284 | The invariant that state, buffer and two-word counter represent the message is kept, and the message grows by the input |
| Md5.MD5.Finalize | src/libSRPP/src/md5.cpp:298-330 | The octets given to transform are exactly message, 0x80, zeros and the 64-bit bit count, and the digest is theirs; a second call changes nothing |
| Md5.MD5.TransformBlocks | src/libSRPP/src/md5.cpp:273-275 | Exactly the whole blocks of the input are transformed, in order |
| Md5.MD5.Transform | src/libSRPP/src/md5.cpp:161-245 | One block more is absorbed into the state |
| Md5.MD5.AddToCount | src/libSRPP/src/md5.cpp:256-259 | The two counter words hold 8 times the octet total modulo 2^64, across the carry |
| Md5.CounterStep | src/libSRPP/src/md5.cpp:256-259 | The carry test of the counter is right for every length below 2^32 |
| Md5Spec.FillCompletes | src/libSRPP/src/md5.cpp:306-318 | Message, fill and bit count make whole blocks |
| Handshake.HandshakeAgrees | src/libSRPP/include/Signaling_functions.hpp:77-247 | In every interleaving with loss, duplication and reordering in which one end opens, for all sizes: responder completion implies initiator completion, which implies equal keys; the initiator then holds the smaller of the two sizes if and only if that is below 100000, and otherwise what its first five digits spell; both hold the same size once both are complete, and before that if and only if the smaller is below 100000; at most one round of five HELLOs and one HELLOACK per end |
| Handshake.SizesSettled | src/libSRPP/include/Signaling_functions.hpp:213-219 | The size a HELLOACK brings back is the smaller of the two if and only if that has at most five digits, through both truncating buffers |
| Handshake.InvariantHolds | src/libSRPP/include/Signaling_functions.hpp:77-247 | The inductive invariant behind it, for every state of every such run |
| Handshake.InvariantStep | src/libSRPP/include/Signaling_functions.hpp:77-247 | Every step of the two-endpoint system keeps the invariant |
| Handshake.CanAlwaysComplete | src/libSRPP/include/Signaling_functions.hpp:77-247 | From every reachable state after the HELLO, three arrivals complete both ends under the initiator's key |
| Handshake.EveryMessageCanArrive | src/libSRPP/src/SRPP_functions.cpp:594-627 | Everything ever sent can be read by the other end, whatever octets follow it |
| Handshake.KeysAgreeIff | src/libSRPP/include/Signaling_functions.hpp:77-247 | In every run at all, whoever opens: once both ends have opened with different keys, their keys agree if and only if one end alone has read the other's HELLO; when both are complete, the keys agree if and only if they have not each read the other's HELLO or had drawn the same key |
| Handshake.EveryStateHasAPhase | src/libSRPP/include/Signaling_functions.hpp:77-247 | Every state of every run is one in which nobody, one end or both ends have opened, each with its own invariant |
| Handshake.CrossedKeysAgreeIff | src/libSRPP/include/Signaling_functions.hpp:77-247 | With both ends open each holds its peer's key from the moment it has read a HELLO |
| Handshake.CrossedStaysCrossed | src/libSRPP/include/Signaling_functions.hpp:77-247 | Every step keeps the invariant of two ends that have both opened |
| Handshake.CrossedHellosExchangeKeys | src/libSRPP/include/Signaling_functions.hpp:77-247 | A run in which both open and every message arrives ends with both complete and the keys exchanged |
| Handshake.LostHelloLeavesOneKey | src/libSRPP/include/Signaling_functions.hpp:77-247 | A run in which both open and one HELLO is lost ends with both complete under one key |
| Handshake.SignalingFunctions.SendHelloMessage | src/libSRPP/include/Signaling_functions.hpp:139-205 | Guarded by all four flags; sends the HELLO five times and stores the key |
| Handshake.SignalingFunctions.SendHelloAckMessage | src/libSRPP/include/Signaling_functions.hpp:207-247 | Sends one HELLOACK under its guards and remembers it |
| Handshake.SignalingFunctions.ReceivedHelloMessage | src/libSRPP/src/SRPP_functions.cpp:594-612 | Takes the key and the smaller size, then answers |
| Handshake.SignalingFunctions.ReceivedHelloAckMessage | src/libSRPP/include/Signaling_functions.hpp:86-114 | Takes the smaller size, completes, answers if it has not yet, and resets two flags |
| SignalingText.HelloReadsBackIff | src/libSRPP/include/Signaling_functions.hpp:146-160 | The key of a HELLO is read back whatever follows the text, and the size if and only if both fit the sender's 15-character buffer |
| SignalingText.SpelledRange | src/libSRPP/include/Signaling_functions.hpp:213-219 | What is read of a number that was cut to w digits: the number if and only if it has at most w, and its first w digits otherwise |
| SignalingText.AckReadsBackIffShort | src/libSRPP/include/Signaling_functions.hpp:213-219 | The size in a HELLOACK is read back if and only if it is below 100000 |
| SignalingText.DigitsOfDecimal | src/libSRPP/src/SRPP_functions.cpp:594-627 | Reading the digits of a printed number gives the number |
| LibSrtp.RefusedPacketsLeaveNoTrace | 3rd_party/srtp/srtp/srtp.c:801-1075 | Deleting all refused packets from any run of the four operations leaves all other results, the stream list, the limits and the replay databases unchanged |
| LibSrtp.RefusalChangesNothing | 3rd_party/srtp/srtp/srtp.c:801-1075 | unprotect that ends in bad_param, no_ctx, replay_old, replay_fail or auth_fail changes neither session nor packet |
| LibSrtp.StreamsStayDistinct | 3rd_party/srtp/srtp/srtp.c:562-797 | No run of any mix of protect and unprotect, RTP or RTCP, puts two streams with one SSRC on the list |
| LibSrtp.StepGrowsList | 3rd_party/srtp/srtp/srtp.c:1409-1783 | A step adds at most one stream, at the head, with an SSRC that was not on the list, and removes none |
| LibSrtpRun.CreatedDistinctIff | 3rd_party/srtp/srtp/srtp.c:1183-1278 | The streams of a new session are distinct if and only if its specific policies are |
| LibSrtpRun.CreatedIff | 3rd_party/srtp/srtp/srtp.c:1183-1278 | A policy list is accepted if and only if no policy is undefined and at most one is a wildcard |
| LibSrtpRun.EveryPacketArrives | 3rd_party/srtp/srtp/srtp.c:562-1075 | Over every run of packets of any number of streams with any sequence numbers, all delivered, and refused noise in between, a receiver that starts as the sender's twin accepts and restores every protected packet |
| LibSrtpLossy.EveryArrivalIsRestored | 3rd_party/srtp/srtp/srtp.c:562-1075 | Over every run of any number of streams that go forward, with packets lost and refused noise in between, every packet that arrives within the reach of the receiver's own index is accepted and restored, over any number of rollovers |
| LibSrtpLossy.ArrivalRestores | 3rd_party/srtp/srtp/srtp.c:562-1075 | One arrival is restored, and the receiver's replay state catches up with it |
| LibSrtpLossy.ReachedIsAdmitted | 3rd_party/srtp/crypto/replay/rdbx.c:201-288 | A database behind the sender's finds the index of a packet within its reach, admits it and moves to it |
| LibSrtpLossy.CreatedFollow | 3rd_party/srtp/srtp/srtp.c:1183-1278 | Sessions created from matching policy lists start such a run |
| LibSrtpRun.PacketBetweenTwins | 3rd_party/srtp/srtp/srtp.c:562-1075 | One packet from a sender to its twin is restored and leaves the two twins |
| LibSrtpRun.RefusalBetweenTwins | 3rd_party/srtp/srtp/srtp.c:562-797 | A packet that protect refuses does not part the twins, though it may put a stream on the list |
| LibSrtpRun.TwinsFromPolicies | 3rd_party/srtp/srtp/srtp.c:1183-1278 | Sessions created from matching policy lists are twins |
| LibSrtpRun.UnprotectByView | 3rd_party/srtp/srtp/srtp.c:801-1075 | unprotect depends only on the stream that answers for the SSRC: a provisional stream behaves as a fresh clone, and no other stream is touched |
| LibSrtpRun.ProtectByView | 3rd_party/srtp/srtp/srtp.c:562-797 | protect depends only on the stream that answers for the SSRC and touches no other |
| LibSrtpRun.ProtectTwiceIff | 3rd_party/srtp/srtp/srtp.c:683-691 | A packet protected twice is refused the second time if and only if it lay ahead and was not guessed back over a wrap; every other packet is protected again, a late one in the window under the same index with the same octets |
| LibSrtpRun.UnprotectTwiceIff | 3rd_party/srtp/srtp/srtp.c:857-865 | An accepted packet is refused as a replay if and only if it lay ahead and was not guessed back over a wrap; every other packet is accepted again if and only if its tag holds under the index now estimated, which for a late one in the window is the same |
| LibSrtpRun.EveryRtcpPacketArrives | 3rd_party/srtp/srtp/srtp.c:1409-1783 | Over every run of up to 2^31 - 1 control packets of one source, delivered in order and with no keystream prefix, each is accepted and restored |
| LibSrtpRun.RtcpPacketArrives | 3rd_party/srtp/srtp/srtp.c:1409-1783 | One such packet is restored, and the sender's counter and the receiver's window move on together |
| LibSrtpRun.ProtectRtcpByView | 3rd_party/srtp/srtp/srtp.c:1409-1584 | protect_rtcp sends under the next index of the stream that answers for the SSRC, answers key_expired once its counter has reached 2^31, and touches no other stream |
| ReplayDb.InOrderShows | 3rd_party/srtp/crypto/replay/rdb.c:73-124 | After the indices 1 to n in order the window is a true picture of them and admits n + 1 |
| LibSrtpRun.ExpiryIsOneOff | 3rd_party/srtp/crypto/kernel/key.c:78-114 | The hard limit stops one packet; the next is not expired, since the count wraps |
| SrtpTransform.OpenedSealedIff | 3rd_party/srtp/srtp/srtp.c:562-1075 | Under one index, unprotect gives back the protected packet, for every CSRC count, extension and service, if and only if tags are used or have length 0 |
| SrtpTransform.SealedIsAuthentic | 3rd_party/srtp/srtp/srtp.c:954-992 | A protected packet passes the tag comparison under the same index |
| SrtpTransform.OpenedSealedRtcp | 3rd_party/srtp/srtp/srtp.c:1409-1783 | The SRTCP index is read back if and only if it is below 2^31, and then the packet is restored |
| SrtpTransform.SealedRtcpIsAuthenticIff | 3rd_party/srtp/srtp/srtp.c:1691-1707 | A protected RTCP packet is authentic if and only if the keystream prefix makes no difference to its tag; always so with prefix length 0 |
| SrtpTransform.IvsDistinct | 3rd_party/srtp/srtp/srtp.c:700-713 | In counter mode the vector determines SSRC and index |
| SrtpTransform.CryptTwice | 3rd_party/srtp/srtp/srtp.c:757-763 | Adding the keystream twice at the same offset restores the packet |
| LibSrtpApi.SrtpCtx.SrtpProtect | 3rd_party/srtp/srtp/srtp.c:562-797 | In place: status, new session and the octets up to the new length are those of the value model |
| LibSrtpApi.SrtpCtx.SrtpUnprotect | 3rd_party/srtp/srtp/srtp.c:801-1075 | The same for unprotect; a refused packet's buffer is untouched |
| LibSrtpApi.SrtpCtx.GetStream | 3rd_party/srtp/srtp/srtp.c:1121-1134 | The walk down the list finds the first stream with the SSRC, or none |
| LibSrtpApi.CryptInPlace | 3rd_party/srtp/srtp/srtp.c:757-763 | The keystream goes into exactly the octets from the payload to the end |
| LibSrtpApi.AuthenticInPlace | 3rd_party/srtp/srtp/srtp.c:954-992 | The computed tag is compared with the last octets of the packet |
| Buffers.SameOctets | 3rd_party/srtp/crypto/math/datatypes.c:391-398 | The comparison loop finds equality if and only if all octets agree |
| ReplayDb.GuessDifferenceIff | 3rd_party/srtp/crypto/replay/rdbx.c:125-177 | The difference reported with a guess leads from the local index to it if and only if the guess does not reach back over a wrap; there its sign is turned |
| ReplayDb.EstimateIsExactIff | 3rd_party/srtp/crypto/replay/rdbx.c:257-288 | An index is estimated exactly if and only if it lies in the reach of the local one, with roc 0 forced up to local index 2^15 |
| ReplayDb.RdbxStepIff | 3rd_party/srtp/crypto/replay/rdbx.c:201-243 | Adding an admitted index keeps the bit mask a true picture of the accepted indices if and only if it lies ahead |
| ReplayDb.LateIsNotRecorded | 3rd_party/srtp/crypto/replay/rdbx.c:228-243 | Every late index that is admitted would be admitted again after it was added |
| ReplayDb.CheckAfterAdvances | 3rd_party/srtp/crypto/replay/rdbx.c:201-243 | Over runs that only advance, each of the last 128 indices is refused if and only if it was accepted |
| ReplayDb.EnteredIsRefusedIff | 3rd_party/srtp/crypto/replay/rdbx.c:201-288 | A sequence number just entered is refused when it comes again if and only if it lay ahead and was not guessed back over a wrap; otherwise it is admitted under the same index, or under one a rollover later |
| ReplayDb.BackOverWrapMovesOn | 3rd_party/srtp/crypto/replay/rdbx.c:125-177 | A guess back over a wrap pushes the local index forward, and the number still lies ahead of it |
| ReplayDb.EnteredTwice | 3rd_party/srtp/crypto/replay/rdbx.c:125-177 | From local index 0x17000 number 0xF001 is entered under index 0xF001 and again under 0x1F001 |
| ReplayDb.AheadIsReported | 3rd_party/srtp/crypto/replay/rdbx.c:257-288 | An index ahead that is estimated exactly is reported as far ahead as it lies |
| ReplayDb.RdbStepIff | 3rd_party/srtp/crypto/replay/rdb.c:73-124 | Adding an admitted SRTCP index keeps the window true if and only if it lies at most one place behind the window's end |
| ReplayDb.FarIndexIsNotRecorded | 3rd_party/srtp/crypto/replay/rdb.c:101-124 | An SRTCP index that jumps further would be admitted again |
| RecvQueue.IncomingQueue.InsertRecvPacket | 3rd_party/ccrtp-1.7.1/src/incqueue.cpp:363-463 | Keeps both doubly linked lists well-formed for every source; the packet goes in front of the first packet of its source with a larger number, or to the end, and only a repeat of the source's last number is dropped |
| RecvQueue.IncomingQueue.constructor | 3rd_party/ccrtp-1.7.1/src/incqueue.cpp:363-463 | The empty queue over any set of empty sources satisfies the invariant |
| RecvQueue.RunFromEmpty | 3rd_party/ccrtp-1.7.1/src/incqueue.cpp:363-463 | Over any run from empty each source's packets are in order of sequence number, and the queue holds exactly the accepted packets, each once |
| RecvQueue.InsertAll | 3rd_party/ccrtp-1.7.1/src/incqueue.cpp:363-463 | A run on the linked structure follows the run on sequences |
| RecvQueue.WalkBack | 3rd_party/ccrtp-1.7.1/src/incqueue.cpp:363-463 | Walking prev from recvLast visits every packet exactly once, newest first |
| RecvQueue.WalkRestricted | 3rd_party/ccrtp-1.7.1/src/incqueue.cpp:363-463 | That walk restricted to one source is the source's list reversed |
| RecvQueue.FirstStaysHead | 3rd_party/ccrtp-1.7.1/src/incqueue.cpp:392-400 | recvFirst stays the head of the queue if and only if the new packet does not overtake the first one |
| RecvQueue.SearchBack | 3rd_party/ccrtp-1.7.1/src/incqueue.cpp:371-382 | The backward search stops at the place of the packet in its source's list |
| RecvQueue.SearchFindsPlace | 3rd_party/ccrtp-1.7.1/src/incqueue.cpp:371-415 | The place found in the source's list is the place in the global queue |
| RecvQueue.InsertKeepsSorted | 3rd_party/ccrtp-1.7.1/src/incqueue.cpp:363-463 | Insertion at its place keeps every source's packets in order |
| RecvQueue.GlobalBefore | 3rd_party/ccrtp-1.7.1/src/incqueue.cpp:392-412 | Relinking in front of a packet inserts into the global list there |
| RecvQueue.SourceMiddle | 3rd_party/ccrtp-1.7.1/src/incqueue.cpp:402-415 | Relinking between two packets inserts into the source's list there |
| RecvQueue.SourceFirst | 3rd_party/ccrtp-1.7.1/src/incqueue.cpp:388-400 | Relinking at the head inserts into the source's list at the front |
| RecvQueue.SourceAppend | 3rd_party/ccrtp-1.7.1/src/incqueue.cpp:425-456 | Relinking at the end appends to the source's list, also when it was empty |
| Members.RunAll | 3rd_party/ccrtp-1.7.1/src/members.cpp:210-298 | After any run of getSourceBySSRC and BYESource the creation list holds the SSRCs in the order they were first asked for, once each, and the count is its length less the good-byes found, modulo 2^32 |
| Members.MembershipBookkeeping.GetSourceBySSRC | 3rd_party/ccrtp-1.7.1/src/members.cpp:231-285 | Keeps every chain strictly ascending, holding exactly the sources that hash to it, and the creation list threaded; creates a source if and only if it is not registered |
| Members.MembershipBookkeeping.IsRegistered | 3rd_party/ccrtp-1.7.1/src/members.cpp:210-228 | The search with its early exit is membership in the set of registered sources |
| Members.MembershipBookkeeping.ByeSource | 3rd_party/ccrtp-1.7.1/src/members.cpp:287-298 | Uncounts a registered source each time, and leaves it in the table |
| Members.MembershipBookkeeping.Enter | 3rd_party/ccrtp-1.7.1/src/members.cpp:239-285 | A new link enters its chain and the creation list, and the invariant of the table holds again |
| Members.MembershipBookkeeping.constructor | 3rd_party/ccrtp-1.7.1/src/members.cpp:174-184 | The empty table satisfies the invariant |
| Members.RegisteredIffAsked | 3rd_party/ccrtp-1.7.1/src/members.cpp:231-285 | A source is registered after a run if and only if the run asked for it, and at one place only |
| Members.CountIsExactIff | 3rd_party/ccrtp-1.7.1/src/members.cpp:287-298 | The count is the number of registered sources that have not left if and only if none says good-bye twice |
| Members.SearchDecides | 3rd_party/ccrtp-1.7.1/src/members.cpp:210-228 | Where the search of an ascending chain stops decides membership in the whole table |
| Members.LinkCollis | 3rd_party/ccrtp-1.7.1/src/members.cpp:239-274 | Relinking puts the new link into its chain at the place found, also at its head and end |
| Members.BucketInsert | 3rd_party/ccrtp-1.7.1/src/members.cpp:239-274 | The chain stays strictly ascending and complete with the new source |
| RtcpReport.ControlIsAccepted | 3rd_party/ccrtp-1.7.1/src/control.cpp:856-1075 | For every source list, CNAME of up to 255 octets and item of up to 127 the built compound is accepted by the check of received compounds |
| RtcpReport.DispatchControl | 3rd_party/ccrtp-1.7.1/src/control.cpp:856-973 | The compound built in the buffer is the specified packets and never exceeds 1500 octets |
| RtcpReport.PackReports | 3rd_party/ccrtp-1.7.1/src/control.cpp:919-957 | The do-while loop writes the first report and further ones while the last is full and there is room |
| RtcpReport.PackReportBlocks | 3rd_party/ccrtp-1.7.1/src/control.cpp:1029-1075 | Packs as many blocks from the first source on as fit below the limit, at most 31 |
| RtcpReport.PackSdes | 3rd_party/ccrtp-1.7.1/src/control.cpp:976-1027 | Writes CNAME, item, end and padding, with the length field exact |
| RtcpReport.EveryReportStartsAgain | 3rd_party/ccrtp-1.7.1/src/control.cpp:922-960 | Every further report starts again with the first source, so none after the 31st is ever reported |
| RtcpReport.AtMostTwoReports | 3rd_party/ccrtp-1.7.1/src/control.cpp:922-960 | The path MTU leaves room for two report packets |
| RtcpCompound.AcceptedIff | 3rd_party/ccrtp-1.7.1/src/rtcppkt.cpp:110-138 | Following the lengths accepts a compound if and only if it splits into well-formed packets of version 2, but for the last, whose version is never looked at |
| RtcpCompound.CheckCompoundHeader | 3rd_party/ccrtp-1.7.1/src/rtcppkt.cpp:110-138 | The loop accepts if and only if the compound starts with an unpadded report and is such a chain |
| RtcpCompound.CompoundIsChained | 3rd_party/ccrtp-1.7.1/src/rtcppkt.cpp:110-138 | Every such list of packets is followed to its end |
| RtcpText.SdesReadsBack | 3rd_party/ccrtp-1.7.1/src/control.cpp:976-1027 | What packSDES writes is read as CNAME and item in order, with the CNAME found |
| RtcpText.ItemsReadBack | 3rd_party/ccrtp-1.7.1/src/control.cpp:623-692 | Any list of zero-free items of at most 255 octets, ended by a zero, is read back as it was |
| RtcpText.OnGotSdesChunk | 3rd_party/ccrtp-1.7.1/src/control.cpp:623-692 | The receive loop stores the items in order, drops those before a participant is known, and tells whether a CNAME came |
| RtcpText.ReasonArrivesIff | 3rd_party/ccrtp-1.7.1/src/control.cpp:520-557 | The reason of a BYE arrives as given if and only if it has at most 254 octets |
| RtcpText.DispatchBye | 3rd_party/ccrtp-1.7.1/src/control.cpp:770-810 | The compound built is an empty report and the BYE, within 276 octets of the buffer |
| RtcpText.ByeIsAccepted | 3rd_party/ccrtp-1.7.1/src/control.cpp:770-810 | It is accepted by the check, whatever the padding bit left in its second header |
| Cbc.DecryptUndoesEncrypt | 3rd_party/srtp/crypto/cipher/aes_cbc.c:150-259 | decrypt(encrypt(d)) = d for block-aligned data and any vector |
| Cbc.EncryptBlockwise | 3rd_party/srtp/crypto/cipher/aes_cbc.c:150-197 | Each ciphertext block is the encryption of its block chained to the one before, as in section 6.2 of NIST SP 800-38A |
| Cbc.EncryptInTwo | 3rd_party/srtp/crypto/cipher/aes_cbc.c:150-197 | Encrypting in two chained calls is encrypting the concatenation in one |
| Cbc.TwoDecryptsIff | 3rd_party/srtp/crypto/cipher/aes_cbc.c:200-259 | Two decrypt calls give what one would if and only if the second has nothing left or the first ends in the vector: decrypt does not carry its chain over |
| Cbc.UnpadUndoesPad | 3rd_party/srtp/crypto/cipher/aes_cbc.c:263-328 | The padding is removed exactly for every octet string |
| Cbc.CbcContext.Encrypt | 3rd_party/srtp/crypto/cipher/aes_cbc.c:150-197 | In place, with the state left at the last ciphertext block; unaligned data is refused and untouched |
| Cbc.CbcContext.Decrypt | 3rd_party/srtp/crypto/cipher/aes_cbc.c:200-259 | In place, with previous left as it was |
| Cbc.CbcContext.EncryptBlock | 3rd_party/srtp/crypto/cipher/aes_cbc.c:178-193 | The inner loops encrypt one block and leave the rest of the data |
| Cbc.CbcContext.DecryptBlock | 3rd_party/srtp/crypto/cipher/aes_cbc.c:228-256 | The inner loops decrypt one block while saving its ciphertext |
| Cbc.CbcContext.NistEncrypt | 3rd_party/srtp/crypto/cipher/aes_cbc.c:263-295 | Pads and encrypts, and clears one octet beyond the padded data |
| Cbc.CbcContext.NistDecrypt | 3rd_party/srtp/crypto/cipher/aes_cbc.c:299-328 | Finds the last mark; the search leaves the buffer if and only if the plaintext has none |
| Cbc.CbcContext.SetIv | 3rd_party/srtp/crypto/cipher/aes_cbc.c:135-147 | State and previous both become the vector |
| AeTransform.AeRoundTrip | 3rd_party/srtp/crypto/ae_xfm/xfm.c:183-426 | dec restores every plaintext that enc protected, under the same clear data and vector |
| AeTransform.AeGrowth | 3rd_party/srtp/crypto/ae_xfm/xfm.c:183-291 | Growth is 28 - n mod 16, which passes the announced maximum of 27 if and only if n is a multiple of 16 |
| AeTransform.AeRefusesIff | 3rd_party/srtp/crypto/ae_xfm/xfm.c:294-426 | dec answers auth_fail if and only if the tag is not that of clear data and ciphertext |
| AeTransform.AeEncrypt | 3rd_party/srtp/crypto/ae_xfm/xfm.c:183-291 | In place: ciphertext and tag, and nothing beyond them changed |
| AeTransform.AeDecrypt | 3rd_party/srtp/crypto/ae_xfm/xfm.c:294-426 | In place: status and plaintext; auth_fail leaves data and length alone |
| SrppCodec.MediaRestoredIff | src/libSRPP/include/SRPPMessage.hpp:117-278 | A media message comes back with payload, sequence numbers, timestamp, SSRC, padding bit, pad count, tag and dummy flag, whatever the buffer held before, if and only if it has 1 to 1500 octets of padding and its encrypted payload has no zero before its last octet |
| SrppCodec.CopiesWholeIff | src/libSRPP/include/SRPPMessage.hpp:148-153 | That condition on the payload: no octet before the last equals the low octet of the key |
| SrppCodec.CryptedTwice | src/libSRPP/include/SRPPMessage.hpp:292-328 | decrypt undoes encrypt on every field, for every key below 2^16 |
| SrppCodec.FromWireFields | src/libSRPP/include/SRPPMessage.hpp:201-278 | What a receiver reads: refused above 1500, eight octets too many with no padding, all fields as sent otherwise |
| SrppCodec.LostOtherwise | src/libSRPP/include/SRPPMessage.hpp:117-278 | For every other message there is a buffer content with which it does not come back |
| SrppCodec.SrppMessage.Crypt | src/libSRPP/include/SRPPMessage.hpp:292-328 | The loops and field updates are the exclusive or with the key |
| SrppCodec.SrppMessage.ToNetwork | src/libSRPP/include/SRPPMessage.hpp:117-192 | The buffer is laid out as specified, and the pad count, decrypted and encrypted again on the way, ends as it was |
| SrppCodec.SrppMessage.FromNetwork | src/libSRPP/include/SRPPMessage.hpp:201-278 | Reads the message from the end backwards, or refuses it |
| OutQueue.Run | 3rd_party/ccrtp-1.7.1/src/outqueue.cpp:403-604 | Any interleaving of putData, dispatchDataPacket and expiry keeps the invariant of the queue, and the payloads put are the data of the calls in order |
| OutQueue.OutgoingQueue.PutData | 3rd_party/ccrtp-1.7.1/src/outqueue.cpp:420-479 | Packets removed followed by packets queued are the packets put, in order; a call appends the segments of its data with consecutive numbers modulo 2^16, at most the first marked |
| OutQueue.OutgoingQueue.DispatchDataPacket | 3rd_party/ccrtp-1.7.1/src/outqueue.cpp:575-604 | The first packet is sent; packet and octet counts stay the dispatched totals modulo 2^32 |
| OutQueue.OutgoingQueue.ExpireFirst | 3rd_party/ccrtp-1.7.1/src/outqueue.cpp:402-413 | An expired packet leaves the queue uncounted |
| OutQueue.CutsJoin | 3rd_party/ccrtp-1.7.1/src/outqueue.cpp:426-432 | The segments join to the data |
| OutQueue.CutsSizes | 3rd_party/ccrtp-1.7.1/src/outqueue.cpp:426-432 | All segments but the last have the full size, and none is empty or larger |
| Padding.FullBandwidthRestoredIff | src/libSRPP/src/Padding_Algorithms.cpp:121-168 | A fully padded message comes back if and only if its payload is shorter than 1366 octets and zero-free as above: the longest payload of constant size gets no padding and is lost |
| Padding.FullBandwidthIsConstantIff | src/libSRPP/src/Padding_Algorithms.cpp:121-168 | With full-bandwidth padding the size on the wire is constant if and only if the payload has at most 1366 octets |
| Padding.PaddingFunctions.GenerateDummyData | src/libSRPP/src/Padding_functions.cpp:203-232 | Terminates with exactly the requested length |
| Padding.PaddingFunctions.GenerateDummyPkt | src/libSRPP/src/Padding_functions.cpp:171-200 | Gives a packet of at most the size and keeps every drawable cache entry non-empty |
| Padding.PaddingFunctions.AddToDummyCache | src/libSRPP/src/Padding_functions.cpp:236-264 | Keeps every drawable cache entry non-empty |
| Padding.PaddingFunctions.PacketSizePadding | src/libSRPP/src/Padding_Algorithms.cpp:121-168 | The padding size in each mode; lastmaxbandwidth is at least 100 and never falls, under any single-precision rounding that keeps order |
| Padding.PaddingFunctions.Pad | src/libSRPP/src/Padding_functions.cpp:53-72 | Keeps the invariant of the cache; with only full-bandwidth mode set pads up to 1366 |
| Padding.PaddingFunctions.CurrentBurstPadding | src/libSRPP/src/Padding_Algorithms.cpp:173-214 | At most two dummies, none empty, only in burst mode, keeping the cache |
| Padding.PaddingFunctions.constructor | src/libSRPP/src/Padding_functions.cpp:24-44 | Fills the 99 drawable entries with non-empty payloads |

## Left out

- Sockets, raw IP, firewall queues, SIP and SDP text, the GUI, demos and timers: input and output only.
- Key derivation, AES, HMAC-SHA1 and tmmhv2 themselves: any functions of the stated kind take their place.
- F8 mode of ccRTP: its vector comes from the packet header, and the branch is not modelled.
- ccRTP packet constructors that build headers, CSRC lists and padding: packets are given as octets.
- SrtpContext.CryptoContext.Update: the window is arbitrary after shifts below 0 or of 64 and more, which the language leaves undefined.
- SrtpContext.ReplayCheckIsExact: stated for runs that advance by 1 to 63, the shifts that are defined.
- SrtpRun.RunRestoresEveryPacket: both rollover counters start at 0 and indices stay 2^16 below 2^48.
- ccMD5 on 32-bit `unsigned long` words.
- The wait loops and timeouts of the handshake: each receive is one step. Overflow of `atoi`, which no printed size reaches.
- BYE and BYEACK of SRPP: they are never sent, because empty payloads are dropped.
- LibSrtp.RefusedPacketsLeaveNoTrace: failures of the cipher itself, allocation failures and event handlers are not modelled.
- SRTCP calls of libSRTP and the replay databases are modelled on values: update in place is captured for the RTP pair only. The stream list is a sequence, so that pointers into it are positions.
- The bit mask of the replay databases is a sequence of 128 truth values: the word-wise shift that implements it is not modelled.
- `srtp_remove_stream`, and the key state kept beside the packet count.
- LibSrtpRun.ProtectTwiceIff: the index stays 2^16 below 2^48, and the key has packets left for both.
- LibSrtpRun.UnprotectTwiceIff: the same.
- LibSrtpLossy.EveryArrivalIsRestored: indices stay 2^17 below 2^48, and the key has packets left.
- SrtpSession.SendAndReceive: how a queued packet is laid out in octets is any function that keeps its sequence number; the loop ends at the first foreign packet that is accepted.
- RecvQueue: `getWaiting` and removal of packets; two links are never the same packet.
- `removeSource`, conflict lists and statistics of the membership table; a table with no buckets.
- RtcpReport.ControlIsAccepted: contents of sender info and report blocks are given octets; RTCP timing, jitter and reconsideration are not modelled.
- RtcpText.OnGotSdesChunk: chunks after the first, whose position the caller computes from the packet length, are not modelled; the branch for private items is one no item type reaches.
- RtcpText.ReasonArrivesIff: a length octet that points past the packet reads on in the receive buffer, which the model takes as an empty reason.
- Cbc.CbcContext.Encrypt: data of 2^31 octets and more, whose signed count is negative, is not modelled.
- `aes_128_cbc_hmac_sha1_96_func` and `_inv`, and the authentication-only branch, which does nothing.
- SrppCodec.SrppMessage.ToNetwork: messages with contributing sources, for which the loop runs past the array, are not modelled; neither is the byte order of RTP headers after conversion.
- SrppCodec.SrppMessage.FromNetwork: a pad count that reaches into the header, for which the original throws, is a refusal in the model.
- Contents of dummy octets are not modelled, nor is `generate_dummy_pkt` without a size, which nothing calls.
- OutQueue.OutgoingQueue.ExpireFirst: whether a packet has expired is the caller's choice, as it depends on the clock; destinations and protection at the time of putting are not part of the queue.
