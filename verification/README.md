# Verification of the IBSS chat protocol and of libbfish

This project models, in Dafny, the two cores of the IBSS chat program and proves what they are for.

**Protocol.** Every node floods datagrams over multicast: it counts how often it has seen a message, forwards by a rule with four
branches, ignores its own messages coming back, answers discovery messages, and retransmits its own messages until it sees them
forwarded by somebody else. Messages live in a bounded buffer on a doubly linked list and are written to local clients. `Network`
puts n such nodes together with the copies on the air and lets every step happen in any order: sending, delivery, loss, waiting,
giving up, synchronising message by message. `Soundness`, `Acknowledgement`, `Termination`, `Flooding` and `Delivery` prove results about all its runs;
`LocalRuns` and `BufferRuns` about all histories of one node; `Projection` carries the relay bound and the delivery to local clients
over to network runs, `BufferRuns` stays with one node. `Endless` shows that the bound on floods cannot do without counting evictions.

**Cipher.** libbfish is a Feistel cipher under mutable tables, a key schedule that encrypts with the tables it is overwriting, CBC
with ciphertext stealing in place, OFB and CFB, and an unrolled SPARC form. The chat body has 79 bytes, so every chat message takes
the stealing path. `Messages.OpenSeal` joins the cores: with it, `Soundness.Agreement` says that whatever a node holds has the type,
id and text its origin passed to mcast_send.

The code in the source changes things in place and so does the model: the list (`LinkedList.dfy`), the buffer with its counters and
sockets (`MsgBuf.dfy`), the read and send loops (`McastNode.dfy`), the key object and message encryption (`ChatCrypto.dfy`), the
block functions, modes, key schedule and checksum are classes and methods with loops, each proved equal to a function on values. The
results are then proved about those functions. The network runs use the very functions the methods are proved against
(`Mcast.Receive`, `Mcast.AfterSend`, `Mcast.AfterWait`, `Buffer.SyncOne`, `Buffer.Delete`, `Messages.Seal`, `Messages.Open`).

What stands for the outside world: `rand() % 100` is a number chosen with each delivery, the random IVs are arguments, the sleep of
mcast_send lets an arbitrary batch of datagrams in, whether sendto or a client write succeeds is an argument, and the constant tables
of keyinit.c are a parameter. A locked section of msgbuf.c is atomic; the turns of the read loop and of mcast_send that use two of them
are single steps of the network.

## Where the code and its documentation differ

- The comment before the third forwarding rule (src/chat_mcast.c:339-343) speaks of a decreasing probability; the code forwards with
  10 times the count, so ever more readily, and for certain at the tenth sighting (`LocalRuns.ForwardingGrows`). The comments and
  src/ChangeLog.txt say that a message is always forwarded the first time, or the first four times; the code does so five times, but a node's own forwards that loop back
  are sightings, too, so it need not forward the first five copies from others (`LocalRuns.OwnCopiesUseUpSightings`).
- src/chat.h:29 calls `sum` a checksum of the message data; msgbuf_setid passes half the message size as a byte count, so the sum
  covers the first 50 bytes only (`Checksum.IdSumIgnoresSecondHalf`).
- msgbuf_dump reads the head of the list without testing for the empty list, which is the null list (src/msgbuf.c:553); the model asks
  for a non-empty list there, as src/msgbuf.c gives no other meaning.
- chat_crypto_set_key allows 60 bytes, the key schedule 56; keys in between are refused by the latter (`ChatCrypto.Crypto.SetKey`).

## Model

| member | source | states |
|---|---|---|
| Soundness.AckSoundness | src/chat_mcast.c:117-157 | in every run, when mcast_send is about to return 0 after a wait, some other node held the message at some point, with the content that was sent |
| Acknowledgement.AckCompleteness | src/chat_mcast.c:117-152 | the converse: in a run that loses no copy between the origin and some other node, and in which the origin keeps the message once it holds it, a waiting mcast_send that checks while no copy is under way between the two returns 0 |
| Acknowledgement.AckStep | src/chat_mcast.c:311-360 | every such step keeps: a call that has transmitted sees its message counted twice, or a copy is under way between the two |
| Acknowledgement.NeighbourAnswers | src/chat_mcast.c:322-337 | a node passes on every copy straight from the origin, the first by the first rule and later ones by the second |
| Acknowledgement.OriginHears | src/chat_mcast.c:311-327 | an own message heard from somebody else has then been counted twice, or is passed on by the origin itself |
| Delivery.EventualAck | src/chat_mcast.c:117-152 | with no more than 1000 ids in use, every schedule of deliveries from such a run ends with nothing on the air, and the check then returns 0 |
| Soundness.Agreement | src/chat_mcast.c:285-292 | in every run, whatever a node holds, by any chain of relays, retransmissions and syncs, has the type, id and text a step of its origin handed in, and nothing else was ever sent under that id |
| Soundness.ApplyInv | src/chat_mcast.c:271-404 | every step keeps the invariant: copies on the air come from their origin or from a node that has held the message, all copies open to what was sent, an own message counted twice has been held elsewhere |
| Soundness.RunInv | src/chat_mcast.c:271-404 | the invariant holds after every run from msgbuf_init |
| Soundness.EverHeld | src/msgbuf.c:342-421 | an id in a node's history was held by it after some number of steps, with the content its origin sent |
| Soundness.SentMeans | src/msgbuf.c:517-533 | the content recorded for an id was handed in by its origin, and every step using the id handed in the same |
| Soundness.ReceiveBufInv | src/chat_mcast.c:311-320 | counting a datagram keeps the buffer part of the invariant, and only messages held are passed on |
| Soundness.ForeignCopy | src/chat_mcast.c:311-316 | read off the invariant: a copy of an own message not sent by the node itself was sent by a node that has held it |
| Soundness.SyncBufInv | src/msgbuf.c:169-198 | a message taken over by sync keeps the invariant although it enters with count 2 |
| Soundness.AdvanceInv | src/chat_mcast.c:120-157 | a call that goes on, succeeds or gives up and deletes its message keeps the invariant |
| Termination.FloodTermination | src/chat_mcast.c:311-404 | with n nodes, loss, loop-back and any draws, the transmissions, deliveries, losses and sender steps of any run are at most n * (calls + n) * 11 * U, plus a fixed amount per mcast_send call, plus 11 * U per evicted entry, where U = n * (n + 2) + 1; so finitely many calls and no eviction mean finitely many transmissions |
| Termination.FewIdsTerminate | src/msgbuf.c:313-334 | a run that uses at most 1000 ids evicts nothing, so its calls alone bound it |
| Endless.NeverEnds | src/msgbuf.c:322-331 | one id more and the bound is gone: among three or more nodes, 1001 calls of a waiting mcast_send with 1001 ids can lead to any number of transmissions, as two nodes keep passing on messages they have just evicted |
| Endless.GoRound | src/chat_mcast.c:318-337 | a message nobody holds any more goes from one node to the other and back, and both evict the next one for it |
| Termination.StepWork | src/chat_mcast.c:311-404 | no step does more work than it takes off the weighted measure; only a new call adds to it, a fixed amount, and an eviction, a full budget |
| Termination.EmissionPaid | src/chat_mcast.c:320-404 | the copies a delivery causes weigh less than the copy and the forwarding budget it uses up, whichever branch forwards it and whether or not an entry is evicted |
| Termination.AdvanceWork | src/chat_mcast.c:120-157 | a call that deletes its message restores at most one full budget |
| Termination.RoomLeft | src/msgbuf.c:313-334 | while the ids in use fit into the buffer, a message not held finds room without eviction |
| Termination.NoEviction | src/msgbuf.c:313-334 | a run whose ids fit into a buffer evicts nothing, and no buffer holds more entries than there are ids |
| Termination.AppendBudget | src/msgbuf.c:313-334 | an insertion takes one full budget down to that of its counter and, if it evicts, gives back at most one full budget |
| Termination.EvictsMeans | src/msgbuf.c:322-331 | an entry is lost exactly when a message not held meets a full buffer |
| Termination.IdsAtMost | src/chat_mcast.c:448-455 | a run uses no more ids than there are calls and nodes |
| Flooding.FloodReaches | src/chat_mcast.c:322-378 | in a run that loses copies only between nodes not linked, with any synchronisation going on, once no copy is crossing a link, every node joined by links to one that heard the message in a datagram has heard and held it, with the content sent |
| Flooding.TransmissionReaches | src/chat_mcast.c:117-127 | the same from the transmission on: what mcast_send put on the air has reached every node joined to the sender by links |
| Delivery.EventualDelivery | src/chat_mcast.c:117-127 | with no more than 1000 ids in use, every schedule of deliveries, in any order and under any draws, ends with nothing on the air, and what was transmitted has then reached every node joined to the sender by links, with the content sent |
| Delivery.Drain | src/chat_mcast.c:271-404 | deliveries alone, in any order and under any draws, come to an end, with nothing left on the air |
| Flooding.HeldIsHeard | src/chat_mcast.c:318-320 | without synchronisation every message a node has held it has heard |
| Flooding.SyncedIsNotRelayed | src/msgbuf.c:178-195 | a node that holds a message by synchronisation only does not spread it: its linked neighbour may never hold it though nothing was lost between them |
| Flooding.StepSpreads | src/chat_mcast.c:322-404 | every step keeps: a linked neighbour of a node that heard or emitted a message has heard it or has a copy coming |
| Flooding.ReceiveSpreads | src/chat_mcast.c:322-360 | a datagram of valid type ends up in the node's history, and one never heard before is forwarded unless the node sent it itself, even if the message is held by synchronisation |
| Flooding.HeardStep | src/msgbuf.c:145-202 | every step keeps: a message never heard is uncounted, or counted 2 by synchronisation |
| LocalRuns.RelayBound | src/chat_mcast.c:320-360 | while a message stays buffered, a node forwards it at most ten times plus once per copy straight from the origin, and the origin at most ten times, whatever arrives |
| LocalRuns.RelayAtLeast | src/chat_mcast.c:313-337 | while a message stays buffered, every copy straight from the origin is forwarded, and the first five sightings are all forwarded but those of the node's own copies and the two a synchronisation credits |
| LocalRuns.AllSightingsCount | src/chat_mcast.c:313-360 | a foreign message is counted whoever sent the copy, and forwarded as the rule says for the running count |
| LocalRuns.OwnCopiesUseUpSightings | src/chat_mcast.c:313-360 | with three own forwards looping back in between, the fourth copy from another node is the seventh sighting and is dropped under the highest draw |
| LocalRuns.EventPays | src/chat_mcast.c:320-360 | each forward is paid for by the counter or by a direct copy |
| LocalRuns.ForwardingGrows | src/chat_mcast.c:339-356 | read off the forwarding rule: from the sixth sighting on a further sighting never makes forwarding less likely, the tenth is certain, beyond it only direct copies are forwarded |
| LocalRuns.DeliveredOnce | src/msgbuf.c:342-421 | over a stay in the buffer, whenever it begins, a socket registered throughout is written the message exactly once if it came by a datagram and is foreign or was seen twice, and never otherwise |
| LocalRuns.EventWrites | src/msgbuf.c:360-376 | a message already held is written exactly when an own one reaches count 2 |
| LocalRuns.AnsweredOnce | src/chat_mcast.c:377-404 | over a stay in the buffer a message is answered with the node's own discovery message exactly once if it came as a discovery datagram, and never otherwise |
| LocalRuns.CopiesWritten | src/msgbuf.c:287-301 | one write reaches a socket once if it is registered in one slot, and not otherwise |
| Projection.RunProjects | src/chat_mcast.c:271-378 | a node's buffer in a network run is its own local run over what happened to it; it relays as often as that run forwards and writes to its clients as often as that run does |
| Projection.NetworkRelayBound | src/chat_mcast.c:320-360 | from any state that keeps the invariant: while a message stays in the buffer once it got there, a node relays it at most ten times plus once per copy straight from the origin, and the origin at most ten times |
| Projection.NetworkDelivery | src/msgbuf.c:342-421 | from any such state in which the message is not held: if it stays once it got there, a client connected throughout is written it exactly once if it came by a datagram and is foreign or was seen twice, and never otherwise |
| Projection.DeliveredAgreement | src/msgbuf.c:272-303 | in every run, whatever a node writes to a client has the type, id and text a step of its origin handed in, and nothing else was ever sent under that id |
| Projection.NetworkSync | src/msgbuf.c:145-202 | a synchronisation in the network that reads the peer's dump to its end is the merge of the sync loop |
| Mcast.OutlookMeaning | src/chat_mcast.c:117-157 | mcast_send with wantack returns 0 exactly when some try goes out, all tries before it went out unacknowledged, and the message is then seen more than once; at most ten transmissions, and ten on failure unless a sendto failed |
| Mcast.TenTries | src/chat_mcast.c:117-152 | a call nobody acknowledges gives up after ten transmissions |
| Mcast.OutlookNoWait | src/chat_mcast.c:123-134 | a call that wants no acknowledgement transmits once and fails only with its sendto |
| Mcast.ForwardingChances | src/chat_mcast.c:320-360 | the forwarding rule in numbers of the hundred draws: none for an own copy, all for the first five sightings, the tenth and every direct copy, 61, 71, 81 and 91 for the sixth to the ninth sighting of a relayed copy, none beyond the tenth |
| Mcast.DrawDecides | src/chat_mcast.c:344-354 | from the sixth to the ninth sighting a relayed copy is forwarded exactly for draws up to ten times the count |
| Mcast.OtherTypesIgnored | src/chat_mcast.c:294-299 | read off the type test: messages of other types change and cause nothing |
| Mcast.KnownTypesCounted | src/chat_mcast.c:294-320 | messages of type 1 and 2 are counted unless they are the node's own coming back |
| McastNodes.McastNode.OnDatagram | src/chat_mcast.c:280-404 | one turn of the read loop leaves the buffer, the air, the clients and their slots as the receive function says; the relayed bytes are those received |
| McastNodes.McastNode.CountAndDecide | src/chat_mcast.c:294-381 | the loop-back test, counting, forwarding chain and discovery test against the receive function, with the client writes |
| McastNodes.McastNode.ShouldForward | src/chat_mcast.c:322-360 | the chain of conditions is the forwarding rule |
| McastNodes.McastNode.McastRead | src/chat_mcast.c:271-404 | the read loop handles datagrams in order, with all its client writes, and ends for good at the first empty one: nothing that comes later is handled |
| McastNodes.McastNode.McastSend | src/chat_mcast.c:76-158 | return value and number of transmissions follow from what the checks saw while the read loop went on or had ended, and the buffer, the air and the clients are left accordingly; a failed call has deleted its message |
| McastNodes.SettleMeaning | src/chat_mcast.c:154-157 | a failed call takes its message and nothing else out of the buffer the loop left, a successful one nothing; air, clients and reader are as the loop left them |
| McastNodes.QuietLoop | src/chat_mcast.c:117-152 | when nothing arrives, all a call does is to put its datagram on the air once per transmission |
| McastNodes.HandleSnoc | src/chat_mcast.c:271-404 | the read loop over one datagram more handles that datagram last |
| McastNodes.HandleStop | src/chat_mcast.c:271-272 | the first empty datagram ends the loop with what was handled before it |
| McastNodes.DroppedMeans | src/chat_mcast.c:280-292 | read off the tests: datagrams of another size than 100 bytes, and all datagrams without a key, change and cause nothing |
| Network.AdvanceMeaning | src/chat_mcast.c:154-157 | the same of a call in the network: a failing one deletes its message and nothing else |
| McastNodes.McastNode.Retransmit | src/chat_mcast.c:117-152 | the retransmission loop against its value-level account |
| McastNodes.McastNode.SetDiscovery | src/chat_mcast.c:448-455 | the discovery reply is the sealed discovery message |
| BufferRuns.EntriesExplained | src/msgbuf.c:306-376 | after any history every entry was put there unchanged by one operation that found its id absent, its counter is the number of msgbuf_add calls since, that one included, or 2 more if it came by sync, and the list is in insertion order |
| BufferRuns.SlidingWindow | src/msgbuf.c:313-334 | without deletes the buffer is exactly the last 1000 insertions |
| BufferRuns.RunWellFormed | src/msgbuf.c:313-334 | in every reachable buffer ids are distinct, at most 1000 entries are held, counters are positive |
| Buffer.SyncMerges | src/msgbuf.c:145-202 | with total size within 1000, syncing from a peer's encrypted dump appends exactly the released messages not held, in order and with count 2, returns their number, and an immediate second sync takes nothing |
| Buffer.SyncAppends | src/msgbuf.c:169-198 | the sync loop appends exactly the missing messages of a stream with distinct ids |
| Buffer.DumpMembers | src/msgbuf.c:541-587 | a dump holds a message exactly if the buffer holds it and it is foreign or was seen at least twice |
| Buffer.DumpInOrder | src/msgbuf.c:553-581 | a dump keeps buffer order |
| Buffer.AddCountsAtMost | src/msgbuf.c:360-389 | msgbuf_add raises one counter by one, raises no other, and the message is held afterwards even when another was evicted |
| Buffer.DeleteCounts | src/msgbuf.c:485-512 | msgbuf_delete removes one id and no other |
| Buffer.DeleteEntries | src/msgbuf.c:485-512 | the entries left are those with other ids |
| Buffer.Append | src/msgbuf.c:313-334 | the newest entry is last and never the one evicted |
| MsgBufs.MsgBuf.Add | src/msgbuf.c:342-421 | return value, buffer and client writes of msgbuf_add; unknown types change nothing and give -1 |
| MsgBufs.MsgBuf.Append | src/msgbuf.c:313-334 | append and eviction on the linked list |
| MsgBufs.MsgBuf.Exist | src/msgbuf.c:451-478 | the counter, or zero |
| MsgBufs.MsgBuf.Delete | src/msgbuf.c:485-512 | the entry is unlinked and the result tells whether there was one |
| MsgBufs.MsgBuf.SyncLoop | src/msgbuf.c:169-198 | the sync loop on the list and its return value |
| MsgBufs.MsgBuf.Dump | src/msgbuf.c:541-587 | the walk over the list writes the released messages in order, cut off where the peer stops taking them, each encrypted under its own IV if that was asked for and a key is set, and returns their number |
| MsgBufs.SockList.Write | src/msgbuf.c:272-303 | one copy per open slot, failed sockets lose their slot but are counted in the result, own messages at count 1 are held back |
| MsgBufs.SurvivingMeaning | src/msgbuf.c:287-297 | read off the loop: the slots of sockets that failed are free, the others as they were |
| MsgBufs.WrittenMeaning | src/msgbuf.c:286-299 | one copy per slot that holds a socket that takes it |
| MsgBufs.OpenSlotsMeaning | src/msgbuf.c:286-302 | the result counts the slots that were not free |
| MsgBufs.SockList.AddSock | src/msgbuf.c:208-240 | a socket takes at most one slot; failure exactly when it has none and none is free |
| MsgBufs.SockList.DelSock | src/msgbuf.c:246-265 | one slot of the socket is freed, or the call fails |
| LinkedLists.Append | src/linkedlist.c:21-52 | contents grow by the new last element; a null list becomes a list of one |
| LinkedLists.Unlink | src/linkedlist.c:126-173 | contents lose exactly that element, head, tail, middle or only one; the list becomes null exactly with its last entry, otherwise the chain stays doubly linked and counted |
| LinkedLists.Exists | src/linkedlist.c:102-120 | the first matching entry, or null when none matches |
| LinkedLists.GetFirst | src/linkedlist.c:61-76 | the first element is taken out and handed over |
| LinkedLists.GetLast | src/linkedlist.c:84-97 | the last element is taken out and handed over |
| LinkedLists.Get | src/linkedlist.c:180-192 | the first match is taken out and saved; without one nothing changes |
| LinkedLists.Delete | src/linkedlist.c:199-207 | the first match is taken out |
| LinkedLists.RemoveFirstMeaning | src/linkedlist.c:180-207 | the first match goes, what stands before and after it stays in order; without a match nothing goes |
| LinkedLists.ChainWithout | src/linkedlist.c:155-159 | links that skip one entry are the links of the chain without it |
| Feistel.DecipherEncipher | src/libbfish/decrypt.c:69-94 | for every round function, P table and block, decryption undoes encryption |
| Feistel.EncipherDecipher | src/libbfish/encrypt.c:68-93 | and conversely |
| Feistel.DownFollowsUp | src/libbfish/decrypt.c:69-88 | after n rounds decryption holds the halves encryption had 16 - n rounds in, crossed and whitened |
| Feistel.DownIsUpReversed | src/libbfish/decrypt.c:69-88 | decryption is encryption with the P table read backwards |
| Blowfish.DecryptEncrypt | src/libbfish/decrypt.c:48-109 | bfish_decrypt and bfish_encrypt are mutually inverse, byte reversals included |
| Blowfish.FMeaning | src/libbfish/encrypt.c:72-82 | the highest byte of the word selects in the first S box, the next in the second, the next in the third, the lowest in the last; the four words are combined by addition, exclusive or and addition |
| Memory.BlockEncMeaning | src/libbfish/encrypt.c:48-108 | eight bytes of memory are read as two big-endian words, the first one left, and written back the same way after the sixteen rounds |
| Blowfish.XorSwap | src/libbfish/encrypt.c:39 | three XORs exchange two distinct cells |
| Blowfish.BfishKey.Fbox | src/libbfish/encrypt.c:72-82 | the step-wise F on the key object |
| Blowfish.BfishEncryptSwap | src/libbfish/encrypt.c:48-108 | the in-place block encryption |
| Blowfish.BfishDecrypt | src/libbfish/decrypt.c:47-109 | the in-place block decryption |
| Bytes.ByteSwapReverses | src/libbfish/encrypt.c:60-64 | the shift formula reverses the four bytes in memory |
| Sparc.SparcEncrypt | src/libbfish/encrypt_sparc.S:62-579 | the unrolled rounds on the flat key image, registers trading roles, compute what the C loop with its swaps computes |
| Sparc.SparcDecrypt | src/libbfish/decrypt_sparc.S:61-578 | the same for decryption |
| Sparc.LdTable | src/libbfish/encrypt_sparc.S:76-99 | the byte offsets used address the S box words meant |
| KeyInit.BfishKeyinit | src/libbfish/keyinit.c:330-385 | whatever the fresh memory holds, the tables are a function of the constants and of the 72-byte cyclic extension of the key; null exactly above 56 bytes |
| KeyInit.MixKey | src/libbfish/keyinit.c:351-365 | the nested key loops |
| KeyInit.EveryWordOverwritten | src/libbfish/keyinit.c:367-382 | each pair of final table words is the output of its own step, chained from the step before; nothing else survives |
| KeyInit.ScheduleMeaning | src/libbfish/keyinit.c:367-382 | on the 1042 words of the key object: the first pair is the encryption of the zero block under the mixed tables, every further pair the encryption of the pair before it, under tables whose earlier words are final and whose later words are still the mixed ones |
| KeyInit.MixedMeaning | src/libbfish/keyinit.c:354-365 | P word i before the first step is its constant XORed with key bytes 4i to 4i + 3, first byte highest, starting over when the key ends; the S boxes are the constants |
| KeyInit.ShiftOut | src/libbfish/keyinit.c:357-362 | four shifts push out what the word held before |
| KeyInit.RepeatedKey | src/libbfish/keyinit.c:355-362 | a key written several times over has the same cyclic extension |
| KeyInit.DoubledKey | src/libbfish/keyinit.c:354-382 | k and k + k give identical tables |
| KeyInit.MixedInjective | src/libbfish/keyinit.c:354-365 | before the first encryption, tables agree exactly when the extensions do |
| Cbc.DecryptEncrypt | src/libbfish/cbc_decrypt.c:49-138 | for every table, IV and length, decryption restores what was encrypted |
| Cbc.EncryptDecrypt | src/libbfish/cbc_encrypt.c:51-107 | and conversely, so the mode is a length-preserving permutation |
| Cbc.ChainBlocks | src/libbfish/cbc_encrypt.c:77-87 | the CBC equation for every block away from the tail |
| Cbc.ChainTail | src/libbfish/cbc_encrypt.c:91-106 | where the stolen block and its head end up, behind plain CBC of the rest |
| Cbc.EncryptBlocks | src/libbfish/cbc_encrypt.c:66-87 | every block of the result ahead of a short tail is the encryption of its plaintext XOR the block before it, the first XOR the IV |
| Cbc.EncryptTail | src/libbfish/cbc_encrypt.c:91-106 | the stolen tail for every length above one block that is not a multiple of eight |
| Cbc.StealTail | src/libbfish/cbc_decrypt.c:118-130 | decrypting the padded block uncovers both the tail and the missing bytes |
| Cbc.RestealTail | src/libbfish/cbc_encrypt.c:95-102 | the converse, for arbitrary blocks |
| Cbc.CbcEncrypt | src/libbfish/cbc_encrypt.c:51-107 | the in-place loop writes exactly the reference result and nothing else, below one block nothing |
| Cbc.CbcDecrypt | src/libbfish/cbc_decrypt.c:49-138 | the same for decryption with its saved feedback blocks |
| Cbc.SaveSecondLast | src/libbfish/cbc_decrypt.c:65-80 | the saved block is the one the last full block was chained to, the IV when there is only one |
| StreamModes.OfbTwice | src/libbfish/ofb.c:51-85 | OFB twice from one IV is the identity and ends in the same register |
| StreamModes.OfbKeyStream | src/libbfish/ofb.c:77-84 | OFB is XOR with a key stream that does not see the message |
| StreamModes.OfbBytes | src/libbfish/ofb.c:77-84 | byte i is combined with byte i modulo the subblock length of the IV encrypted once per subblock so far |
| StreamModes.OfbRegister | src/libbfish/ofb.c:77-84 | the final register is the IV encrypted once per subblock |
| StreamModes.CfbRoundTrip | src/libbfish/cfb.c:79-100 | CFB in one direction undoes the other, with identical final registers |
| StreamModes.CfbLast | src/libbfish/cfb.c:79-100 | each further subblock is combined with the head of the encrypted register, which then takes in the ciphertext: the output when encrypting, the input when decrypting |
| StreamModes.CfbShiftBytes | src/libbfish/cfb.c:91-97 | where every byte of the shifted register comes from |
| StreamModes.AcceptsMeaning | src/libbfish/cfb.c:60-76 | 8, 16 and 32 bits are accepted if whole subblocks make up the message |
| StreamModes.BfishOfb | src/libbfish/ofb.c:51-85 | the in-place loop; other widths and misaligned lengths change nothing |
| StreamModes.BfishCfb | src/libbfish/cfb.c:53-101 | the in-place loop with its one-byte register shift |
| StreamModes.ShiftRegister | src/libbfish/cfb.c:91-97 | the shift by one byte, whatever the subblock |
| Messages.OpenSeal | src/chat_crypto.c:113-169 | who holds the same tables reads what was sealed, under every IV |
| Messages.SealOpen | src/chat_crypto.c:113-169 | sealing again under the IV a message came with gives back the bytes that came |
| Messages.SealLayout | src/chat_crypto.c:113-140 | the bytes put on the air: type and id in the clear, the fresh IV, eight chained blocks, then the encrypted padded tail in place of the ninth and the head of the ninth behind it |
| Messages.ParseImage | src/chat.h:18-52 | every field of the struct is read from the bytes where the struct has it, numbers in little-endian order |
| Messages.SameIdBytes | src/msgbuf.c:66-92 | comparing the twelve id bytes is comparing ids |
| Messages.ParseInjective | src/chat.h:38-52 | no two byte images denote the same message |
| ChatCrypto.Crypto.SetKey | src/chat_crypto.c:57-87 | success exactly up to 56 bytes; a refused key leaves the old one in force |
| ChatCrypto.Crypto.Encrypt | src/chat_crypto.c:113-140 | 21 header bytes stay clear but for the IV, the 79 body bytes are encrypted in place; -1 and no change without a key |
| ChatCrypto.Crypto.EncryptCopy | src/msgbuf.c:566-569 | the copy a dump sends is the sealed message, or the plain one without a key |
| ChatCrypto.Crypto.Decrypt | src/chat_crypto.c:147-169 | the inverse, leaving the IV |
| Checksum.Chksum | src/net.c:37-68 | the accumulation loop with 32-bit wrap-around and the odd trailing byte |
| Checksum.TermsCount | src/net.c:54-61 | the sum counts every byte up to the length once, those at odd places 256 times, and none beyond |
| Checksum.AnswerCorrect | src/net.c:54-67 | up to 65537 words the accumulator cannot wrap, and the uncomplemented answer is the word sum modulo 65535, zero only for all zeros |
| Checksum.OneMoreWraps | src/net.c:54-57 | with 65538 words it can wrap |
| Checksum.TwoFolds | src/net.c:64-65 | two folds suffice for every 32-bit sum |
| Checksum.SwappedAnswer | src/net.c:54-67 | byte-swapping every word byte-swaps the checksum |
| Checksum.IdSumIgnoresSecondHalf | src/msgbuf.c:530-532 | read off the byte count passed: the id sum does not see the second half of the message |
| Checksum.IdSumSeesFirstHalf | src/msgbuf.c:530-532 | it is the checksum of all of the first 50 bytes |

## Left out

- Buffer.SyncMerges: covers merges that need no eviction, as an evicted message is taken again by the next sync.
- Network.FreshId: uniqueness of ids is assumed of msgbuf_setid, as it rests on the clock.
- Buffer.Add: counters are unbounded; the wrap of `uint32_t count` after 2^32 sightings is not modelled.
- Network.Apply: a delivery takes msgbuf_exist and msgbuf_add (src/chat_mcast.c:313 and 320) in one step, a check msgbuf_exist and
  msgbuf_delete (src/chat_mcast.c:146 and 156); what the synchronising thread or the reader does between the two calls is not modelled.
- A reader thread that ended is, in `Network`, a node to which every further copy is lost.
- Sockets, multicast and TCP set-up, threads, locks, signals, real time and back-off; a failure to create or bind a socket.
- The neighbour list and the choice of the peer to synchronise with: the network lets a node synchronise with any other.
- Sharing of keys: all nodes of the network hold the same tables; nodes with different keys are not part of it.
- Allocation failure, logging, printing, chat_crypto_get_key, the configuration and client programs.
- Release of memory: entries and lists given up are simply no longer referred to.
- The numeric constant tables of the cipher, and its cryptographic strength.
- The compile-time switch that turns off waiting for acknowledgements.
