# Anonychat in Dafny

Anonychat is an anonymous chat: a name server deals every connected client a list of peers,
and clients flood encrypted messages to each other, so that everyone sees every message and
only the holder of the right key can read it. This project models the logic of the name
server, of the client and of the library they share, and proves what they promise, from the
single buffer write up to the sentence above.

`dafny verify dfyconfig.toml` checks the whole project.

| file | what it models |
|---|---|
| `Sequences.dfy`, `Wrappers.dfy` | what several modules need of sequences; options |
| `LinkedList.dfy` | the doubly linked list of `ac-lib/list.c`, on the heap, stale links included |
| `ListHistory.dfy` | which removals from it work, by the operations before them |
| `Shuffle.dfy` | the in-place shuffle of `manage_graph` |
| `PeerGraph.dfy` | the heap nodes and both graph builders of `ac-lib/tree.c` |
| `PeerOrder.dfy` | the order in which these builders connect a node |
| `GraphSearch.dfy` | the breadth-first search of `manage_graph`, on those lists and nodes |
| `PeerText.dfy`, `Strtok.dfy` | the text of a PEERS message, written and parsed |
| `NameServer.dfy` | `manage_graph` and the two ways to write a peer list |
| `PeersLength.dfy` | how long the PEERS messages are, and when they fit |
| `Base64.dfy` | the encoder and decoder over buffers, against section 4 of RFC 4648 |
| `Envelope.dfy` | the three-field envelope of `ac-lib/enc.c` and its padding |
| `Cipher.dfy` | what is assumed of OpenSSL, and who displays a message |
| `SeenTable.dfy` | the table of seen messages of `ac-lib/msg.c`, with the text as the key |
| `BufferKeys.dfy` | the same table with the buffer as the key, as in the code |
| `ClientNode.dfy` | one client: peer list, seen table, receiving and sending |
| `Flood.dfy` | the network of clients as a state machine; its invariants |
| `FloodCoverage.dfy` | where a flooded text arrives, and how often |
| `FloodCost.dfy` | how many copies and how many steps a flood takes |
| `Replay.dfy` | what purging may forget |
| `ConnectionFlood.dfy` | the flood with tables that are only sure of each connection |
| `ClientRun.dfy` | one client object in a run of the whole network |
| `EndToEnd.dfy` | all of it together |
| `WorkedExamples.dfy` | small inputs and what becomes of them, in literal texts and lists |

## Main results

- With the peer lists that `manage_graph` deals, and with the texts as keys of the tables, a text
  typed once is handled exactly once by every other client that has not stopped, under any
  interleaving of all handler threads and whichever clients stop, between any two steps. The
  flood never takes more than n(n-1) copies for n < 5 and 2n(n-1) otherwise; with nobody stopped
  it takes exactly those, and exactly 2n-1 more steps than copies. If the text has at most 462
  characters, the holders of the matching key print exactly once what was typed, and nobody else
  prints anything for it (`EndToEnd.FloodReachesEveryoneOnce`, `EndToEnd.MessageArrives`,
  `EndToEnd.TakePart`). Every run can be finished, and any run is at most that long
  (`FloodCost.CanFinish`, `FloodCost.FloodTerminates`).
- With the buffers as keys, as in the code, "exactly once" becomes "at most once for each
  connection"; the text still reaches exactly the clients it should, and every flood still ends
  (`ConnectionFlood.AtMostOncePerConnection`, `ConnectionFlood.NotedIffReachable`,
  `ConnectionFlood.FloodTerminates`, `ConnectionFlood.LongestFlood`).
- What becomes of longer texts, taking the cut text to end where it is cut: with 463 to 478
  characters the vector loses its last byte, and the holders read one character wrong unless
  that byte was 0; with 479 or more the third field is gone, the broadcast still reaches
  everyone at full cost, and every receiver, key holder or not, follows a NULL pointer, though
  copies may still be on the way to it (`Envelope.FitsExactly`, `Cipher.DisplayedByKeyHolders`,
  `Cipher.DisplayedAsTyped`, `EndToEnd.TooLongReachesEveryone`).
- A client object takes part in any run of the network exactly as the state machine says, in its
  table, in what it sends and in what it prints (`ClientRun.Perform`, `ClientRun.FollowRun`).
- On any network, once every client is at rest or has come to the point of opening the text, a
  client has seen it if and only if it can be reached from an originator
  (`FloodCoverage.SeenIffReachable`).
- The shuffle is Sattolo's: it reaches exactly the rearrangements by a single n-cycle, and each
  from one choice of residues (`Shuffle.ReachesExactlyTheCycles`, `Shuffle.NumsAreUnique`).
- Both graph builders make an exact multigraph, pair by pair and degree by degree, despite the
  wrap-around index of the first (`PeerGraph.ExactMultigraph`, `PeerGraph.ExactDegree`); and every
  node's connections are known by place (`PeerOrder.AllPairsByPlace`, `PeerOrder.RingByPlace`).
- What a client is dealt, and in which order, is a function of what `rand()` returned
  (`NameServer.ManageGraph`); a client that took it is connected to each entry of its list
  (`EndToEnd.TakePeers`).
- The search ends on a wanted node if and only if one is reachable, and then on a nearest one
  (`GraphSearch.FindNode`).
- Base64 and the envelope around it round-trip, in both directions for base64, with the exact
  texts and lengths for which they do; the encoded text is given character by character
  (`Base64.EncodeAt`).

## Where the code does not do what it seems to promise

Each of these is a proved statement or, where it says so, a choice of the model.

- Removing a list element leaves its successor's `prev` on the removed element. A later removal
  of that successor reports success and removes nothing. `LinkedList.List.Remove` says exactly
  when a removal works, and `ListHistory.RemovalWorks` says it by the operations before: if the
  element is the head, or if the one that was last when it was appended has not left the list.
  `LinkedList.StaleRemoval` is an input on which it does not.
- So when two neighbours in the name server's list disconnect, the earlier one first
  (`ac-name-server/name_server.c:133`), the second, freed by then, may stay in the list, and
  nothing is claimed of `manage_graph` after that: `NameServer.ManageGraph` is about a list on
  which all removals so far have worked.
- The table of seen messages is keyed by the buffer that a thread receives into, and by a string
  that is freed at once. A text is known only if it came over the same connection before, or over
  another one whose latest text it still is (`BufferKeys.BufferTable.CheckAndInsert`); so a
  client with several connections may handle a text once for each of them
  (`BufferKeys.ForgottenText`). `ConnectionFlood` says what that leaves of the flood. As a choice of
  the model, all other modules have the text itself as the key; "at most once" and "exactly once"
  are about such tables.
- The name server builds every PEERS list in 504 bytes and passes strncat the size of the buffer
  as if it were the space left (`ac-name-server/name_server.c:153`, `:193-205`). The lists have
  2(n-1) entries from five clients on; with entries of 20 characters they fit up to 12 clients
  (`PeersLength.PeersTextLength`, `PeersLength.TwelveFit`). `NameServer` builds the whole list.
- The comment at `ac-name-server/name_server.c:398` names the Fisher-Yates shuffle; the loop
  below it draws from one place fewer.
- The comment at `ac-client-server/client_server.c:829` says an encoded message is never too long
  for the padding. It is, beyond 462 characters, and `getline` sets no limit to a typed line.
  `Envelope.FitsExactly` says what is left of it, `Cipher.DisplayedByKeyHolders` what each
  receiver makes of that. `EVP_OpenInit` always takes 16 bytes for the vector, whatever the
  length of the field (`ac-lib/enc.c:291`); so a vector that lost its last byte is read with the
  decoder's terminator in its place.
- A text with fewer than three fields, such as one of 479 characters or more, is recorded and sent
  on before `parse_str_encrypted_msg` follows the NULL pointer for the missing field
  (`ac-lib/enc.c:390-406`). `ClientNode.Client.ParseMsg` returns with the client not alive. In the
  flood a client that has died takes no more steps and copies for it stay on the wire;
  `EndToEnd.FloodOfMissingField` says that every other client comes to that point, and
  `FloodCost.CanSettle` that the clients that are left can always bring the flood there.
- The comment at `ac-client-server/client_server.c:1023` says padding ends on '}'; it ends on 'w'.
- A connection that failed is marked as open all the same
  (`ac-client-server/client_server.c:585-590`), and copies are sent to a socket of -1
  (`ClientNode.Client.ConnectToPeers`).
- A malformed entry in a peer list keeps `parse_peers` from advancing. `PeerText.PeersRoundTrip`
  and `ClientNode.Client.ParsePeers` say exactly which lists get through;
  `PeerText.ColonPortNeverFinishes` is about one that does not, because a client has called its
  port ":".
- The comment at `ac-lib/msg.c:147-148` says purging removes messages whose purge time is less
  than the current time; the code removes them at that time too.
- `design_doc` keeps an MD5 hash of each message and forwards only messages that could not be
  decrypted. The code keeps whole texts and forwards before it tries to decrypt.
- `ac-name-server/name_server.c:155` reads the size of the peer pool, but both ways to write a list
  name every other client, whatever their number (`NameServer.Deal`).
- After a failed search the code would use the last node it looked at. `GraphSearch.FindNode`
  keeps that; `NameServer.FindOwnNode` shows that a search of a dealt graph does not fail, as long
  as the client list is consistent.

## Model

| member | source | states |
|---|---|---|
| LinkedList.List.Add | ac-lib/list.c:11-28 | appends one value at the end; stale links of the head and of an empty list's tail do no harm, and no `prev` becomes stale |
| LinkedList.List.Find | ac-lib/list.c:40-45 | the traversal stops on the first equal value or at the end, using forward links only |
| LinkedList.List.Remove | ac-lib/list.c:35-70 | removes the first equal value if and only if that element is the head or its `prev` is not stale; otherwise the list keeps it and its size is wrong; a value that is absent changes nothing |
| LinkedList.List.RemovalFromFullyLinked | ac-lib/list.c:51-62 | with every `prev` sound a removal works anywhere, and leaves every `prev` sound exactly when it was at one end |
| LinkedList.List.RemovalKeepsLinks | ac-lib/list.c:51-62 | a removal that works makes the successor's `prev` stale, unless the successor is the head then, and no other |
| LinkedList.StaleRemoval | ac-lib/list.c:55-62 | four appends and two removals after which a removed value is still found and the size is 2 |
| ListHistory.RemovalWorks | ac-lib/list.c:11-70 | after any operations that worked, a removal works if and only if the value is absent, at the head, or the element that was last when it was appended has not left |
| ListHistory.EndsAreSafe | ac-lib/list.c:11-70 | a list that is appended to and from which only its first and last elements are removed always works |
| ListHistory.ApplyAll | ac-lib/list.c:11-70 | a heap list that goes through operations that all work holds exactly what the history holds |
| LinkedList.List.ItemAt | ac-lib/list.c:87-98 | the value at a position of the abstract sequence, NULL for a bad position |
| LinkedList.List.Contains | ac-lib/list.c:113-126 | membership in the abstract sequence, both ways |
| Shuffle.ShuffleInPlace | ac-name-server/name_server.c:399-405 | the loop leaves the array as the specification function rearranges it, for every sequence of draws |
| Shuffle.ShuffledByOrigins | ac-name-server/name_server.c:399-405 | that rearrangement fills every place from one origin, independent of the elements |
| Shuffle.OriginsCycle | ac-name-server/name_server.c:399-405 | for every sequence of draws the origins form one cycle through all places |
| Shuffle.ReachesExactlyTheCycles | ac-name-server/name_server.c:399-405 | a permutation is a result of the loop for some draws if and only if it is a single n-cycle |
| Shuffle.NumsAreUnique | ac-name-server/name_server.c:399-405 | different residues give different permutations |
| Shuffle.NoneStays | ac-name-server/name_server.c:399-405 | for n >= 2 no element keeps its place; every element goes to exactly one place |
| PeerGraph.AddConnection | ac-lib/tree.c:15-41 | appends each node to the other's connections; a node is not connected to itself |
| PeerGraph.CombineNodesToGraph | ac-lib/tree.c:45-138 | every node gains exactly its list of neighbours, in order, and keeps what it had; the head is the last node |
| PeerGraph.ExactMultigraph | ac-lib/tree.c:50-134 | nodes i and j end up connected twice in the all-pairs branch; in the ring branch once if i+j < size and three times otherwise |
| PeerGraph.ExactDegree | ac-lib/tree.c:50-134 | node i ends with 2(size-1) connections, or with size-1+2i, less 2 when 2i >= size |
| PeerGraph.NeighboursInRange | ac-lib/tree.c:21-23 | no node is among its own neighbours |
| PeerOrder.NeighboursByRow | ac-lib/tree.c:50-134 | a node's connections, row by row of the outer loop: its own row gives the other targets of that row, every other row gives that row's node as often as the row names it |
| PeerOrder.AllPairsByPlace | ac-lib/tree.c:119-134 | node i's connections in their order: all before it, all others, all after it |
| PeerOrder.RingByPlace | ac-lib/tree.c:50-80 | node i's connections in their order in the ring branch, for every size and wrap-around |
| GraphSearch.FollowEdges | ac-name-server/name_server.c:435-448 | the inner loop appends the unseen ends of a node's edges, in order and once each, to both lists |
| GraphSearch.VisitInOrder | ac-name-server/name_server.c:435-448 | the ends come into the lists in the order in which the node first names them |
| GraphSearch.FindNode | ac-name-server/name_server.c:415-456 | the search ends on a wanted node if and only if one is reachable from the head, then on a nearest one; no node leaves the queue twice, none before a nearer one |
| GraphSearch.TwoBlocks | ac-name-server/name_server.c:424-448 | in every state that `Searching` describes the queue is a block of nodes at one distance followed by a block at the next |
| GraphSearch.RunSearch | ac-name-server/name_server.c:424-456 | the loop on the heap lists dequeues in the order of the specification; its invariants are `Searching`, the two blocks of the queue, and that nodes - seen + queue drops by exactly one |
| GraphSearch.OrderResult | ac-name-server/name_server.c:424-456 | from any intermediate state of the search the final outcome is right |
| NameServer.ClientPeersRand | ac-name-server/name_server.c:188-213 | the text lists the clients of the node's connections, in order, separated by single spaces |
| NameServer.ClientPeersStatic | ac-name-server/name_server.c:223-251 | the text lists everyone in the list with another socket; NULL if and only if there is one client |
| NameServer.ClientSendPeers | ac-name-server/name_server.c:147-179 | which of the two lists is sent, and to whom; nothing is sent to a lone client |
| NameServer.BuildGraph | ac-name-server/name_server.c:388-409 | one node per client in shuffled order, connected as the graph builder connects them |
| NameServer.FindOwnNode | ac-name-server/name_server.c:415-456 | the search for a connected client ends on that client's own node |
| NameServer.Deal | ac-name-server/name_server.c:160-172 | both ways to write the list name exactly the clients that the shuffle and the graph say: every other client once below the pool size, twice from it on |
| NameServer.OthersByPlace | ac-name-server/name_server.c:223-251 | below the pool size the others are listed in the order of the client list, whatever the draws |
| NameServer.ManageGraph | ac-name-server/name_server.c:381-466 | every client is sent one message, whose text lists all the other clients and not itself, in an order that is a function of the draws: the clients at the places that the client's own place in the shuffled order is connected to; the lists together are a dealt network; a lone client is sent nothing |
| PeerText.SpacedIsFormat | ac-name-server/name_server.c:200-210 | dropping the last space of the text built entry by entry gives the joined entries |
| PeerText.PeersRoundTrip | ac-client-server/client_server.c:458-481 | the client parses the name server's text to the same endpoints, and gets to its end, if and only if all addresses and ports are non-empty and free of spaces and colons |
| PeerText.FurtherParts | ac-client-server/client_server.c:463-480 | an entry counts by its first two parts; what follows a second colon is ignored |
| PeerText.ColonPortNeverFinishes | ac-client-server/client_server.c:458-471 | one client with the port ":" keeps every client that gets its entry from getting past it; the entries before are parsed |
| PeersLength.PeersTextLength | ac-name-server/name_server.c:147-212 | the length of a client's PEERS message in terms of the client list alone, and the exact condition for it to fit into the buffer |
| PeersLength.UniformLength | ac-name-server/name_server.c:147-212 | the same with entries of one length |
| PeersLength.TwelveFit | ac-name-server/name_server.c:147-212 | with entries of 20 characters the message fits if and only if there are at most 12 clients |
| Strtok.TokensOfJoin | ac-client-server/client_server.c:459-480 | splitting a joined list gives it back if and only if its items are non-empty and free of the delimiter |
| Base64.AlphabetIsBijective | ac-lib/base64.c:90-172 | the two tables are inverse to each other on the 64 letters |
| Base64.BasisIsLetter | ac-lib/base64.c:171-172 | the table holds the 64 letters of RFC 4648 in their order |
| Base64.EncodeOps | ac-lib/base64.c:186-191 | the shifts and masks of the encoder are the four sextets of the 24-bit group |
| Base64.DecodeOps | ac-lib/base64.c:142-147 | the shifts of the decoder are the three octets of the 24-bit group |
| Base64.Base64Encode | ac-lib/base64.c:179-209 | the buffer holds the encoding of section 4 of RFC 4648 and a terminator, the rest of it is untouched, and the result is the length promised by the length function |
| Base64.EncodeAt | ac-lib/base64.c:183-204 | every character of an encoding, by place: the letter for the next six bits, and at the end two '=' after one byte left over, one after two |
| Base64.Base64DecodeLen | ac-lib/base64.c:111-124 | the length has room for all decoded bytes and a terminator, for every input |
| Base64.Base64Decode | ac-lib/base64.c:126-169 | the buffer holds the bytes that the leading digits stand for and a terminator, within the promised length, and the result is their number, for every number of digits; nothing past the stopper is read |
| Base64.RoundTrip | ac-lib/base64.c:126-209 | decoding undoes encoding for every byte string, whatever non-digit follows |
| Base64.CanonicalRoundTrip | ac-lib/base64.c:126-209 | encoding undoes decoding if and only if the text is canonical (section 3.5 of RFC 4648) |
| Base64.EncodeLength | ac-lib/base64.c:174-177 | the encoded length is what the length function says |
| Base64.DecodeLength | ac-lib/base64.c:136-167 | the number of decoded bytes for every number of digits |
| Envelope.ParseEncryptedMsgStr | ac-lib/enc.c:335-370 | the printed envelope: message and one byte more, key, vector, in base64 with spaces between |
| Envelope.ParseStrEncryptedMsg | ac-lib/enc.c:389-411 | the struct holds the three decoded fields, the vector with a terminator behind it; false exactly when a field is missing, where the code follows a NULL pointer |
| Envelope.DecodeMessage | ac-lib/enc.c:453-469 | what reaches decryption: the message without one byte, and 16 bytes from where the vector is; or the NULL pointer of a missing field |
| Envelope.PadMessage | ac-client-server/client_server.c:822-838 | a short text is filled up with one space and the random characters that the draws say, none of them a terminator; a long one is cut; the result always has MESSAGE_LENGTH characters |
| Envelope.StrRand | ac-client-server/client_server.c:1019-1026 | the padding has the length asked for, and its k-th character is the k-th draw modulo 72, counted from '0' |
| Envelope.NoTerminatorInside | ac-client-server/client_server.c:822-852 | a padded text holds no terminator before its end, so the code sends all of it |
| Envelope.PrintedFields | ac-lib/enc.c:345-410 | a printed envelope followed by a space and anything reads as its three fields |
| Envelope.EnvelopeRoundTrip | ac-lib/enc.c:335-411 | an envelope that fits is recovered exactly, whatever its message, the byte read past it and the padding |
| Envelope.FitsExactly | ac-client-server/client_server.c:827-838 | what is left of a broadcast: everything up to 462 typed characters, all but the last byte of the vector up to 478, fewer than three fields beyond that |
| Envelope.ReceivedExactly | ac-lib/enc.c:282-292 | and what is decrypted: with 463 to 478 characters the terminator stands in for the lost byte |
| Cipher.DisplayedByKeyHolders | ac-client-server/client_server.c:897-908 | for every length of text what each receiver does with the broadcast: display it, display it with one character changed, tell that it was not meant for it, or follow a NULL pointer |
| Cipher.DisplayedAsTyped | ac-client-server/client_server.c:897-908 | it is displayed as typed if and only if the receiver holds the key and the text has at most 462 characters, or at most 478 and a vector that ends in 0 |
| SeenTable.MessageTable.HashAddMsg | ac-lib/msg.c:114-123 | the text, as a key of its own, is in the table, to be purged MESSAGE_PURGE_TIME seconds from now |
| SeenTable.MessageTable.PurgeMsg | ac-lib/msg.c:143-161 | a purge removes exactly the expired entries and returns their number |
| BufferKeys.BufferTable.CheckAndInsert | ac-lib/msg.c:114-136 | with the buffer as the key: a text that was inserted from the same buffer before, or from one that still holds it, is not new; and, where the hash tells the texts apart, no other is known |
| BufferKeys.ForgottenText | ac-client-server/client_server.c:355-360 | a text that comes over two connections, with another one over the first in between, looks new twice |
| ClientNode.Client.SendToAllPeers | ac-client-server/client_server.c:919-942 | one copy to every list entry with an open connection, in order |
| ClientNode.SendsToOpen | ac-client-server/client_server.c:919-942 | these copies are one for each of the open entries |
| ClientNode.OpenPlacesExactly | ac-lib/msg.c:71-77 | the open entries are exactly those with a connection, in list order |
| ClientNode.Client.CheckAndInsert | ac-client-server/client_server.c:878-891 | an unseen text is recorded, a seen one is left alone |
| ClientNode.Client.ParseMsg | ac-client-server/client_server.c:867-909 | a seen text has no effect; a new one is recorded, sent on and, if the key opens it, printed; the client does not survive a new text with a missing field |
| ClientNode.Client.InputSendMsg | ac-client-server/client_server.c:803-856 | for a known name the sealed text, padded with the characters that the draws say, is recorded and sent, all MESSAGE_LENGTH characters of it; for an unknown one nothing happens |
| ClientNode.Client.CleanPeersList | ac-client-server/client_server.c:517-529 | the peer list ends empty |
| ClientNode.Client.ParsePeers | ac-client-server/client_server.c:451-484 | the new list is exactly the entries of the message up to a malformed one, numbered on and none connected yet, and the loop ends if and only if there is no malformed one; an empty message changes nothing |
| ClientNode.Client.ConnectToPeers | ac-client-server/client_server.c:491-510 | every peer without a connection is tried and marked as open whether that fails or not; the result counts the failures |
| ClientNode.FailuresExactly | ac-client-server/client_server.c:498-509 | the count is the number of unconnected peers whose attempt failed |
| ClientNode.Client.HandleNameServerMsg | ac-client-server/client_server.c:317-330 | after a PEERS message the list is its entries; each is connected to the socket that its attempt returned, unless a malformed entry holds the client up before that; with clean endpoints every text is sent exactly once to each of them; other messages have no effect |
| Flood.Conservation | ac-client-server/client_server.c:919-942 | in every run the copies sent are the copies delivered and the copies in flight |
| Flood.AlwaysAccounted | ac-client-server/client_server.c:878-908 | in every run each recording of a received text is waiting to be sent on, waiting for decryption, or tried |
| Flood.AtMostOnce | ac-client-server/client_server.c:878-891 | without purging and with texts as keys a client records a received text at most once, and its table holds exactly what it originated or recorded |
| Flood.AlwaysCovered | ac-client-server/client_server.c:878-941 | in every reachable state a client that has seen a text has still to send it or has sent it, and once it has, each of its peers has seen it or has a copy in flight |
| FloodCoverage.OnlyFromOriginators | ac-client-server/client_server.c:841-941 | a text is only ever at clients reachable from one that originated it |
| FloodCoverage.SeenIffReachable | ac-client-server/client_server.c:841-941 | once every client is at rest, or at the point of opening the text, exactly the clients reachable from an originator have seen it |
| FloodCoverage.OriginatorNeverRecords | ac-client-server/client_server.c:841-849 | a sole originator drops every copy of its own text that comes back |
| FloodCoverage.RecordedOnce | ac-client-server/client_server.c:867-909 | with one originator every other client it reaches has then recorded the text exactly once, has sent it, and has tried its key or is about to |
| FloodCoverage.ExactlyOnce | ac-client-server/client_server.c:867-909 | with one originator every other client it reaches has recorded the text and tried its key on it exactly once |
| FloodCoverage.OnceAmongTheLiving | ac-client-server/client_server.c:867-909 | whoever has stopped, at any point and for any reason, each client that the originator reaches along others handles the text exactly once |
| FloodCoverage.LeftAtMissingField | ac-lib/enc.c:389-406 | a text without three fields is tried by nobody; each client it reaches comes to the point of following a NULL pointer, whether or not copies are still on the way to it |
| FloodCost.SentIsFanOut | ac-client-server/client_server.c:919-942 | in every run the copies sent are the list lengths summed over the clients' sends |
| FloodCost.SettledCost | ac-client-server/client_server.c:919-942 | a flood in which every client is at rest has sent as many copies as the lists of all clients it reached are long |
| FloodCost.CostNeverMore | ac-client-server/client_server.c:919-942 | and it has never sent more before |
| FloodCost.WorkStep | ac-client-server/client_server.c:878-941 | every step of a flood uses up exactly one unit of its work, and no other step changes it |
| FloodCost.FloodTerminates | ac-client-server/client_server.c:878-941 | from any point of a run the flood takes at most as many steps as there is work, however the rest interleaves |
| FloodCost.NeverStuck | ac-client-server/client_server.c:878-941 | a step of the flood is enabled at a client that has not stopped if and only if the flood is not over for those |
| FloodCost.CanFinish | ac-client-server/client_server.c:878-941 | from any point of any run, whoever has stopped, the others can bring the flood to its end |
| FloodCost.CanSettle | ac-lib/enc.c:389-406 | and if clients have died of a text without fields, the others can bring every client to rest |
| FloodCost.FloodLength | ac-client-server/client_server.c:841-941 | with one originator, steps taken and work left always add up to the same number |
| FloodCost.SettledLength | ac-client-server/client_server.c:841-941 | the same with threads left that are about to open the text, and copies left that are on the way to clients that have died |
| FloodCost.ExactLength | ac-client-server/client_server.c:841-941 | the exact number of steps of a flood that reaches everyone and is over |
| Replay.ReplayWindow | ac-lib/msg.c:114-161 | in every run, with purges at any time, two recordings of one received text by one client are at least 30 seconds apart |
| Replay.WindowIsTight | ac-lib/msg.c:119-157 | and they can be exactly 30 seconds apart |
| ConnectionFlood.AtMostOncePerConnection | ac-lib/msg.c:114-136 | a client records a text at most once for each connection it comes over |
| ConnectionFlood.NotedIffReachable | ac-client-server/client_server.c:841-941 | at the end exactly the clients reachable from an originator have the text, however much their tables forget |
| ConnectionFlood.WorkStep | ac-client-server/client_server.c:878-941 | every step of a flood uses up exactly one unit of its work, even with tables that forget |
| ConnectionFlood.FloodTerminates | ac-client-server/client_server.c:878-941 | from any point of a run the flood takes at most as many steps as there is work |
| ConnectionFlood.LongestFlood | ac-client-server/client_server.c:878-941 | with lists of one length the most steps that a text typed once can take |
| ClientRun.OutboxIsCopies | ac-client-server/client_server.c:919-942 | with different endpoints the copies to a client's list are the copies the flood puts on the wire |
| ClientRun.Perform | ac-client-server/client_server.c:803-965 | each step of a client, run by the client object's own code, keeps the object's table equal to the one in the state, sends one copy to each entry of its list when the flood does, and prints what it can open |
| ClientRun.FollowRun | ac-client-server/client_server.c:803-965 | so a client object follows any run of the network, whatever the other clients do in between: table, outbox and output |
| ClientRun.OutIsSent | ac-client-server/client_server.c:919-942 | over a whole run the outbox holds, client by client, the copies that the flood says |
| ClientRun.PrintsPerTry | ac-client-server/client_server.c:897-908 | over a whole run a client prints for a text what it makes of it, once for each time it has tried its key |
| ClientRun.UninterruptedHandler | ac-client-server/client_server.c:867-909 | three steps of one handler thread record the text, put one copy for each list entry on the wire and try the key once |
| ClientRun.HandleMsg | ac-client-server/client_server.c:867-909 | a client object that handles a message is afterwards the client of the state after those three steps |
| EndToEnd.DealtLists | ac-name-server/name_server.c:160-172 | a dealt list has n-1 entries below the pool size and 2(n-1) from it on, and names everyone else |
| EndToEnd.TakePeers | ac-client-server/client_server.c:317-330 | a client that took its delivery is connected to each entry of the dealt list and sends every text once to each, in order; with different endpoints that is what the flood says |
| EndToEnd.FloodReachesEveryoneOnce | ac-client-server/client_server.c:867-941 | with dealt lists every client but the originator that has not stopped handles a text exactly once, with at most so many copies, and exactly so many copies and steps if nobody has stopped; and such a text has its three fields |
| EndToEnd.FloodOfMissingField | ac-client-server/client_server.c:867-941 | a text without three fields reaches everyone at the same cost, and every other client comes to the point of following a NULL pointer, also if copies for it are still on the wire |
| EndToEnd.MessageArrives | ac-client-server/client_server.c:803-909 | in the run exactly the holders of the key print, once, the characters that were typed, up to 462 of them; one may be wrong up to 478; longer texts never get this far |
| EndToEnd.TakePart | ac-client-server/client_server.c:803-965 | a client object that takes its part in the run prints exactly that |
| EndToEnd.TooLongReachesEveryone | ac-client-server/client_server.c:803-909 | a text of 479 characters or more brings every other client to the point of following a NULL pointer, at the full cost of a flood |
| WorkedExamples.FiveDealt | ac-name-server/name_server.c:388-456 | five clients with the draws 0 0 0 0 3: the first is dealt the clients 1 2 4 1 2 4 3 3 |
| WorkedExamples.FourDealt | ac-name-server/name_server.c:223-251 | of four clients the third is dealt 0 1 3, whatever the draws |
| WorkedExamples.PrintedEnvelope | ac-lib/enc.c:335-370 | the text of one small envelope |
| WorkedExamples.PeersText | ac-name-server/name_server.c:200-210 | the text of a list of two entries |
| WorkedExamples.TokensOfText | ac-client-server/client_server.c:459-480 | where delimiters stand together or at an end no empty token comes out |

## Left out

- Sockets, threads, name resolution, key files, printing, `main` and `nameclient.c` are input and output. One `recv` is taken to deliver one whole message. In the flood every copy to a client that has not stopped arrives, so every connection attempt has succeeded; a client stops between two steps, not half-way through a send, and sending to one that has stopped does nothing to the sender.
- OpenSSL: `Cipher.Ideal` says what is assumed; its error returns are not modelled. `Cipher.IdealExists` shows that the assumption can be met.
- The clock, `rand()`, the randomness of encryption and the byte read past a message are arguments; the theorems hold for all of them. Nothing is said about probabilities beyond the one-to-one count of `Shuffle.NumsAreUnique`.
- The capacity of C strings: names, texts and message buffers are sequences, so the sizes of 512, 1350 and 1500 bytes bound nothing but the padding. `PeersLength` says when the name server's text is too long for its buffer. The base64 buffers are arrays of the sizes that the length functions promise.
- Machine integers: lengths and counters are unbounded.
- `malloc` is taken to succeed, and a new list element to have a null `next`, which `list_add` does not set for all but the first. `free` is not modelled: a removed element is still there for a stale `prev` to write to.
- SeenTable.MessageTable.HashAddMsg: the key is the text itself, not the caller's buffer; `BufferKeys` says what that leaves out.
- ClientNode.Client.CheckAndInsert: as `SeenTable.MessageTable.HashAddMsg`.
- Flood.AtMostOnce: is about tables with texts as keys; `ConnectionFlood` says what holds with buffers as keys.
- FloodCoverage.ExactlyOnce: as `Flood.AtMostOnce`.
- FloodCoverage.OriginatorNeverRecords: as `Flood.AtMostOnce`; the code frees the key of the originator's entry.
- ConnectionFlood.NotedIffReachable: takes for granted that the hash function tells the texts apart, and leaves out reading the freed key of an originator's entry.
- `strtok`'s hidden cursor is an argument, so its sharing between threads is not modelled.
- ClientNode.Client.ParseMsg: a new text with fewer than three fields, on which the client dies, is an outcome and a result, and the method returns.
- Envelope.DecodeMessage: an envelope with an empty message, whose length becomes -1, counts as not readable; the code leaves it to OpenSSL to refuse that length.
- ClientNode.Client.InputSendMsg: requires a colon in the input, because the code writes through the result of strchr without a test; an encoded text of MESSAGE_LENGTH characters or more is cut there, although the code leaves it without a terminator.
- ClientNode.Client.ParsePeers: returns where the code loops for ever, and says so.
- NameServer.ManageGraph: requires a connected client, because its caller has just added itself, distinct sockets, and a list on which every removal so far has worked; after one that has not, the list holds a freed client.
- PeerGraph.CombineNodesToGraph: requires a non-empty group of distinct nodes, as its caller passes it.
- Replacing peer lists during a flood: the flooding theorems are about fixed lists.
- Purging during a flood: main never starts the purging thread. The coverage and at-most-once theorems are about runs without it; `Replay` says what still holds with it.
- The peer-key exchange and the commented-out code, which nothing calls; `key_table.c` and `thread_util.c`, which are thin wrappers.
