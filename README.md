# Tangle room: a Dafny model

Tangle lets clients that share a room find each other through a matchmaking
server and then exchange application messages directly over peer-to-peer
data channels. The `Room` in `tangle_ts/src/room.ts` does three things:

- It runs the room's state machine (Joining, Connected, Disconnected) and the
  registry of peers, driven by control messages from the server and by
  events on the peers' data channels.
- It frames outgoing payloads for data channels whose frames hold at most
  16000 data bytes. A small payload goes in one frame. A larger payload is
  gzip-compressed first. If it is still too large, it goes as a start frame
  that carries the 32-bit big-endian compressed length, followed by
  continuation frames.
- It reassembles incoming frames per peer and hands each whole payload to
  the application.

The model has four modules:

- `Optional` (`optional.dfy`) holds the option type.
- `AddressIdentity` (`address.dfy`) holds `compute_id_from_ip`. It has a
  closed form, `IdOf`, and the loop as a method.
- `MessageCodec` (`codec.dfy`) holds the wire format as values:
  - `Frames` is the encoder;
  - `Receive` and `MultipartReceived` are the decoder on a peer's
    reassembly state;
  - `Feed` feeds a sequence of frames;
  - the lemmas state the layout of the frames and the round trip.
- `Rooms` (`room.dfy`) holds the `Peer` and `Room` classes. Their handlers
  update fields in place:
  - the registry is a `map` from id to `Peer`;
  - the pending-join set is a `set`;
  - each peer's reassembly buffer and the room's scratch send buffer are
    `array`s.

The external effects are modelled as state:

- A frame handed to a data channel is appended to that peer's `sent` outbox.
  The channel copies the frame, so reusing the scratch buffer is invisible.
- A call of `on_state_change`, `on_peer_joined` or `on_peer_left` is
  appended to the room's `events` log.
- A payload scheduled for `on_message` is appended to `delivered`.
- gzip is a pair of functions held by the room. The round trip assumes only
  that decoding undoes encoding (`RoundTrips`).

`Room.Valid()` is the invariant that every handler keeps:

- registry entries are peers the room made, under their own ids;
- every peer owns its reassembly buffer, and no buffer is the scratch
  buffer;
- outside Joining, no peer is awaited.

Four behaviours of the code are easy to misread:

- A start frame allocates a fresh buffer but does not reset the peer's
  offset (`room.ts:383-389`), so it writes at offset 0 only when no
  reassembly was pending. `StartAfterIncomplete` states what happens when an
  earlier reassembly is unfinished, including the offset ending up past the
  new buffer.
- A join or an offer registers a new peer for the sender even when the id is
  already registered, replacing the old entry (`room.ts:270-274`, `401-402`),
  rather than keeping the existing peer.
- A peer id is `a*2^24 + b*2^16 + c*2^8 + d + port` (`room.ts:40-52`).
  The port is added rather than packed, so distinct addresses can share an
  id (`IdsOfDistinctAddressesCanCollide`).
- Data-channel handlers act on the peer object they were created with.
  The message handler checks only that some peer with that id is
  registered (`room.ts:358`), so frames that reach a replaced peer object
  still go to that object's buffer. The open handler checks nothing
  (`room.ts:349-354`): a channel opening on a removed or replaced peer
  still marks it ready, stops awaiting its id, fires on_peer_joined and
  re-checks the join guard.

`Frames`, `Wire`, `SingleTag`, `Receive`, `Feed` and `IdOf` are
specification functions. Their properties are the lemmas and method
contracts listed below.

## Model

| member | source | states |
|---|---|---|
| AddressIdentity.ComputeIdFromIp | tangle_ts/src/room.ts:40-52 | The loop's result is the weighted sum of the four octets (weights 256^3 down to 1) plus the port. |
| AddressIdentity.IdSeparatesHosts | tangle_ts/src/room.ts:46-48 | For one port and octets in 0..255, equal ids mean equal addresses. |
| AddressIdentity.IdSeparatesPorts | tangle_ts/src/room.ts:49 | For one host, different ports give different ids. |
| AddressIdentity.IdsOfDistinctAddressesCanCollide | tangle_ts/src/room.ts:46-49 | Raising the last octet by one and lowering the port by one gives another address with the same id. |
| MessageCodec.ReadU32 | tangle_ts/src/room.ts:384-385 | A big-endian length read from four bytes is below 2^32. |
| MessageCodec.U32BE | tangle_ts/src/room.ts:99 | Writing a 32-bit length takes four bytes. |
| MessageCodec.U32RoundTrip | tangle_ts/src/room.ts:99 | Reading back a written 32-bit length gives the same number. |
| MessageCodec.U32RoundTripBytes | tangle_ts/src/room.ts:384-385 | Writing a length read from four bytes gives the same bytes back. |
| MessageCodec.ContinuationsCarry | tangle_ts/src/room.ts:104-114 | Every continuation frame has the continuation tag and at least one data byte, and the frames' bodies concatenated give back the bytes being split. |
| MessageCodec.ContinuationCount | tangle_ts/src/room.ts:106-113 | Splitting n bytes takes ceil(n / 16000) continuation frames. |
| MessageCodec.SmallPayloadIsOneFrame | tangle_ts/src/room.ts:89-120 | A payload of at most 16000 bytes is sent uncompressed as one single-part frame whose body is the payload. |
| MessageCodec.CompressiblePayloadIsOneFrame | tangle_ts/src/room.ts:89-120 | A larger payload whose compressed form fits is sent as one gzipped single-part frame holding the compressed bytes. |
| MessageCodec.FragmentLayout | tangle_ts/src/room.ts:97-114 | A fragmented payload is a start frame of exactly 16005 bytes (tag, compressed length mod 2^32, first 16000 compressed bytes), then continuation frames only, ceil(n/16000) frames in all, whose bodies reassemble the compressed form. |
| MessageCodec.EveryFrameFits | tangle_ts/src/room.ts:97-120 | Every frame is nonempty, starts with one of the four tags and has at most 16005 bytes. |
| MessageCodec.MultipartReceived | tangle_ts/src/room.ts:406-422 | A chunk that does not fit at the offset raises a range error and changes nothing. Otherwise the chunk lands at the offset, the bytes before and after it are kept, and the offset advances by its length. Exactly when the offset reaches the end, the decompression of the filled buffer is delivered and the peer returns to idle. |
| MessageCodec.ReceiveKeepsOffsetInBounds | tangle_ts/src/room.ts:356-399 | A frame handled without error keeps the offset within the buffer. A payload comes out of a multi-part frame only together with a reset to idle. |
| MessageCodec.StartAfterIncomplete | tangle_ts/src/room.ts:383-389 | A start frame arriving during an unfinished reassembly writes at the old offset behind zeros. If it does not fit there, it raises a range error after replacing the buffer, and the kept offset can lie past the new buffer's end. |
| MessageCodec.StartFrameReceived | tangle_ts/src/room.ts:383-389 | A start frame received while idle allocates a buffer of the declared length and holds its first 16000 bytes at offset 16000. |
| MessageCodec.PartialWrite | tangle_ts/src/room.ts:406-421 | Writing the next n bytes into a buffer that holds a prefix extends the prefix. When the buffer becomes full, the decompression of the whole is delivered. |
| MessageCodec.ContinuationsReassemble | tangle_ts/src/room.ts:391-393 | The continuation frames for the rest of a payload, fed to a peer that holds its prefix, deliver the decompressed payload exactly once and leave the peer idle. |
| MessageCodec.RoundTrip | tangle_ts/src/room.ts:356-422 | The frames the sender produces for a payload, fed in order to an idle receiver, deliver exactly that payload, once, without error. This holds when decompression undoes compression and the compressed length fits in 32 bits. |
| Rooms.Peer.constructor | tangle_ts/src/room.ts:401 | A new peer is not ready, its channel is not open, it has sent nothing, and its reassembly state is idle. |
| Rooms.Room.constructor | tangle_ts/src/room.ts:54-71 | A new room is Disconnected, has id 1, an empty registry and pending set, and a 16005-byte scratch buffer. |
| Rooms.Room.CheckIfJoined | tangle_ts/src/room.ts:300-305 | The room connects, and reports Connected, exactly when it was Joining and nobody is awaited. Otherwise nothing changes. |
| Rooms.Room.EnterRoom | tangle_ts/src/room.ts:242-269 | The room is Joining and awaits the roster's ids minus those already registered. An empty remainder connects it at once, after the Joining report. The room takes its id from the reported address and keeps the invariant. |
| Rooms.Room.OnDataChannelOpen | tangle_ts/src/room.ts:349-354 | The peer becomes ready and is no longer awaited, on_peer_joined fires, and the join guard is re-checked. |
| Rooms.Room.MakeRtcPeerConnection | tangle_ts/src/room.ts:401-403 | A fresh idle peer is registered under the id, replacing any earlier entry. Nothing else in the room changes. |
| Rooms.Room.RemovePeer | tangle_ts/src/room.ts:424-432 | A registered id loses its entry and its channel, and on_peer_left fires with the given time. An unknown id changes nothing. Other peers' channels are untouched. |
| Rooms.Room.OnPeerLeftNotice | tangle_ts/src/room.ts:288-294 | The departed id is removed and no longer awaited, and the join guard is re-checked, so the last awaited peer leaving connects the room. Only the departed peer's channel closes; every other peer's channel is left as it was. |
| Rooms.Room.OnServerMessage | tangle_ts/src/room.ts:233-295 | Dispatch on the first truthy field: a roster announcement, a join or offer registering the sender, an answer or ICE candidate that changes nothing here, or a peer-left notice. Only a peer-left notice closes a channel, and only the departed peer's. |
| Rooms.Room.OnServerClose | tangle_ts/src/room.ts:196-226 | Unless already Disconnected, on_peer_left fires once per registered id, then the registry and pending set are emptied and Disconnected is reported. Either way one reconnect is scheduled. |
| Rooms.Room.MessagePeerInner | tangle_ts/src/room.ts:79-122 | A peer whose channel is open receives exactly the frames of the payload, in order. A closed channel receives nothing. |
| Rooms.Room.SendSingle | tangle_ts/src/room.ts:115-120 | The single-frame branch sends the tag followed by the payload. |
| Rooms.Room.SendFragments | tangle_ts/src/room.ts:97-114 | The fragmenting branch sends the start frame and then the continuation frames of the compressed bytes. |
| Rooms.Room.BuildFrame | tangle_ts/src/room.ts:116-119 | The prefix of the scratch buffer that is handed to the channel is the tag followed by the body. |
| Rooms.Room.SendMessage | tangle_ts/src/room.ts:124-138 | With id 0, every ready peer with an open channel gets the payload's frames. With a registered id, only that peer gets them, if its channel is open. No reassembly state changes. |
| Rooms.Room.Broadcast | tangle_ts/src/room.ts:130-137 | Every registered peer that is ready and open gets the payload's frames, and every other peer gets nothing. |
| Rooms.Room.MultipartDataReceived | tangle_ts/src/room.ts:406-422 | The peer's buffer and offset change in place exactly as `MultipartReceived` states, delivering through on_message. No other peer's state changes. |
| Rooms.Room.OnDataChannelMessage | tangle_ts/src/room.ts:356-399 | A frame from a peer whose id is no longer registered is discarded. Otherwise the frame acts on the peer's own buffer exactly as `Receive` states. No other peer's state changes. |

## Left out

- The WebSocket connection itself is not modelled: opening it, the join request, keep-alive pings and error handling. A control message arrives as an already parsed `ControlMessage`, and a closed socket arrives as a call of `OnServerClose`.
- String parsing of addresses ("a.b.c.d:port") and JSON is not modelled; addresses are already split into octets and a port. A malformed address, which gives NaN ids in the source, is not modelled.
- WebRTC negotiation is not modelled: offers, answers, ICE candidates, `setRemoteDescription` and friends. These are asynchronous browser calls that do not touch the room's state, so the answer and ICE-candidate branches change nothing in the model.
- A channel is not modelled as closing by itself, and `ondatachannel` replacing a peer's channel is not modelled. `channelOpen` is set when the channel opens and cleared by `RemovePeer`.
- gzip is abstract, a pair of functions. Only its round trip is assumed, and only by `RoundTrip`.
- gzip_decode is assumed to return for every input. If it throws (`room.ts:376`, `412`), the source delivers nothing, and a multi-part peer's buffer and offset are not reset, so its later frames fault or land at the stale offset. The model does not capture that path.
- The `setTimeout` deferral of `on_message` and `_artificial_delay` are not modelled. A delivery is appended at the moment it is scheduled, and timers fire in scheduling order.
- The reconnect after 250 ms is counted in `reconnectsScheduled` and not run.
- Rooms.Room.OnServerClose: `Date.now()` is read once per on_peer_left call in the source; the model uses one `now` for all calls of one close.
- Rooms.Room.OnServerClose: the source enumerates the registry in insertion order; the model states only that each registered id is reported exactly once, as `departed`.
- Configuration defaults are not modelled (server URL, room name, ICE servers), and neither are logging, `get_lowest_latency_peer` (a stub) or `disconnect()`. `disconnect()` has no effect: it closes `_server_socket`, which is never assigned (`room.ts:61`, `434-436`).
- Rooms.Room.SendMessage: requires a targeted id to be registered. The source dereferences a missing peer and throws, so that error path is not modelled.
- Rooms.Room.OnDataChannelMessage: a start frame's `new Uint8Array(length)` failing for lack of memory is not modelled.
- MessageCodec.RoundTrip: requires a compressed form shorter than 2^32 bytes. The start frame carries the length mod 2^32, so longer payloads do not round-trip.
