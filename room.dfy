/**
 * The room: the join/connected/disconnected state machine, the registry of
 * peers, and the handlers that the control socket and the peers' data
 * channels drive. Every handler runs to completion before the next event.
 *
 * User callbacks are recorded, in the order the room makes them, in the
 * event log `events`; payloads handed to on_message (which the room defers
 * through a timer) are appended, in the order they are scheduled, to
 * `delivered`; a frame handed to a data channel's send is appended to that
 * peer's `sent`.
 */
module Rooms {
  import opened Optional
  import opened AddressIdentity
  import opened MessageCodec

  datatype RoomState = Joining | Connected | Disconnected

  /** One call of a user callback made synchronously by a handler. */
  datatype Callback =
    | StateChanged(state: RoomState)
    | PeerJoined(peer: PeerId)
    | PeerLeft(peer: PeerId, time: int)

  /** A payload scheduled for on_message, with the peer it came from. */
  datatype Delivery = Delivery(from: PeerId, message: Bytes)

  /**
   * A parsed control message. The handler tests its fields in this order and
   * takes the first that is truthy: a non-empty room_name (roster
   * announcement), a non-empty join_room, an offer, an answer, an ICE
   * candidate, a disconnected_peer_id. `sender` is the address the server
   * appends after the JSON body.
   */
  datatype ControlMessage = ControlMessage(
    roomName: string,
    peers: seq<Address>,
    yourIp: Address,
    joinRoom: string,
    offer: bool,
    answer: bool,
    newIceCandidate: bool,
    disconnectedPeerId: Option<Address>,
    time: int,
    sender: Address)

  /** The identifiers of the addresses in a roster. */
  function RosterIds(roster: seq<Address>): set<PeerId>
  {
    set a | a in roster :: IdOf(a)
  }

  /** One on_peer_left call per id, in order, all at the same time. */
  function PeersLeft(ids: seq<PeerId>, time: int): (log: seq<Callback>)
    ensures |log| == |ids|
  {
    seq(|ids|, i requires 0 <= i < |ids| => PeerLeft(ids[i], time))
  }

  predicate Distinct(ids: seq<PeerId>)
  {
    forall i, j :: 0 <= i < j < |ids| ==> ids[i] != ids[j]
  }

  function Deliveries(from: PeerId, message: Option<Bytes>): seq<Delivery>
  {
    if message.Some? then [Delivery(from, message.value)] else []
  }

  /**
   * One remote participant: its data channel (whether it is open, and the
   * frames sent on it), whether it has become ready, and its reassembly
   * buffer with the offset where the next multi-part bytes go.
   */
  class Peer {
    const id: PeerId
    var ready: bool
    var channelOpen: bool
    var sent: seq<Bytes>
    var latestMessageData: array<byte>
    var latestMessageOffset: nat

    constructor (id: PeerId)
      ensures this.id == id && !ready && !channelOpen && sent == []
      ensures fresh(latestMessageData) && State() == Idle
    {
      this.id := id;
      ready := false;
      channelOpen := false;
      sent := [];
      latestMessageData := new byte[0];
      latestMessageOffset := 0;
    }

    /** The reassembly state, as a value. */
    ghost function State(): Reassembly
      reads this, latestMessageData
    {
      Reassembly(latestMessageData[..], latestMessageOffset)
    }
  }

  class Room {
    var peersToJoin: set<PeerId>
    var currentState: RoomState
    var peers: map<PeerId, Peer>
    /** The scratch array every outgoing frame is built in. */
    const outgoingDataChunk: array<byte>
    const gzip: Gzip
    var myId: PeerId
    var events: seq<Callback>
    var delivered: seq<Delivery>
    var reconnectsScheduled: nat
    /** Every peer object the room has made; their handlers may still fire. */
    ghost var created: set<Peer>

    /**
     * The scratch array has room for a start frame; each registry entry is
     * a peer made by the room under its own id; every peer owns its
     * reassembly buffer, shared neither with another peer nor with the
     * scratch array. Outside Joining the room awaits nobody.
     */
    ghost predicate Valid()
      reads this, created`latestMessageData
    {
      && outgoingDataChunk.Length == MaxMessageSize + 5
      && (currentState != Joining ==> peersToJoin == {})
      && (forall id :: id in peers ==> peers[id] in created && peers[id].id == id)
      && (forall p :: p in created ==> p.latestMessageData != outgoingDataChunk)
      && (forall p, q :: p in created && q in created && p != q ==> p.latestMessageData != q.latestMessageData)
    }

    constructor (gzip: Gzip)
      ensures Valid() && fresh(outgoingDataChunk)
      ensures currentState == Disconnected && peersToJoin == {} && peers == map[] && created == {}
      ensures myId == 1 && events == [] && delivered == [] && reconnectsScheduled == 0
    {
      peersToJoin := {};
      currentState := Disconnected;
      peers := map[];
      outgoingDataChunk := new byte[MaxMessageSize + 5];
      this.gzip := gzip;
      myId := 1;
      events := [];
      delivered := [];
      reconnectsScheduled := 0;
      created := {};
    }

    // -------------------------------------------------------------------
    // Room state machine
    // -------------------------------------------------------------------

    /** The effect of re-checking the guard, between the old and the new state. */
    twostate predicate JoinChecked(eventsBefore: seq<Callback>)
      reads this
    {
      if old(currentState) == Joining && peersToJoin == {} then
        currentState == Connected && events == eventsBefore + [StateChanged(Connected)]
      else
        currentState == old(currentState) && events == eventsBefore
    }

    method CheckIfJoined()
      modifies this`currentState, this`events
      ensures JoinChecked(old(events))
      ensures currentState == Connected ==> old(currentState) != Disconnected
    {
      if currentState == Joining && peersToJoin == {} {
        currentState := Connected;
        events := events + [StateChanged(Connected)];
      }
    }

    /** The effect of a roster announcement. */
    twostate predicate EnteredRoom(roster: seq<Address>, yourIp: Address)
      reads this
    {
      && peersToJoin == RosterIds(roster) - old(peers.Keys)
      && (if peersToJoin == {} then
            currentState == Connected
            && events == old(events) + [StateChanged(Joining), StateChanged(Connected)]
          else
            currentState == Joining && events == old(events) + [StateChanged(Joining)])
      && myId == IdOf(yourIp)
      && peers == old(peers) && created == old(created)
    }

    /**
     * Roster announcement: the room is Joining, waits for the roster's peers
     * that are not registered yet, re-checks the guard (an empty room
     * connects at once), then takes its own id from the address the server
     * reports for it.
     */
    method EnterRoom(roster: seq<Address>, yourIp: Address)
      requires Valid()
      modifies this`currentState, this`peersToJoin, this`events, this`myId
      ensures Valid()
      ensures EnteredRoom(roster, yourIp)
    {
      currentState := Joining;
      peersToJoin := RosterIds(roster);
      events := events + [StateChanged(Joining)];
      var keys := peers.Keys;
      while exists k :: k in keys
        invariant keys <= peers.Keys
        invariant peersToJoin == RosterIds(roster) - (peers.Keys - keys)
        invariant currentState == Joining && events == old(events) + [StateChanged(Joining)]
        decreases keys
      {
        var key :| key in keys;
        peersToJoin := peersToJoin - {key};
        keys := keys - {key};
      }
      CheckIfJoined();
      myId := ComputeIdFromIp(yourIp);
    }

    /**
     * A peer's data channel opened: the peer is no longer awaited, becomes
     * ready, on_peer_joined fires, and the guard is re-checked. The peer is
     * the one whose channel opened, whether or not it is still the
     * registry's entry for its id.
     */
    method OnDataChannelOpen(p: Peer)
      requires Valid() && p in created
      modifies this`peersToJoin, this`currentState, this`events, p`ready, p`channelOpen
      ensures Valid()
      ensures p.ready && p.channelOpen
      ensures peersToJoin == old(peersToJoin) - {p.id}
      ensures JoinChecked(old(events) + [PeerJoined(p.id)])
    {
      p.channelOpen := true;
      peersToJoin := peersToJoin - {p.id};
      p.ready := true;
      events := events + [PeerJoined(p.id)];
      CheckIfJoined();
    }

    /** The effect of registering a new peer under an id. */
    twostate predicate Registered(id: PeerId, new p: Peer)
      reads this
    {
      && peers == old(peers)[id := p]
      && created == old(created) + {p}
      && peersToJoin == old(peersToJoin) && currentState == old(currentState)
      && events == old(events) && myId == old(myId)
    }

    /**
     * A peer is created for the id and registered, replacing whatever entry
     * the id had: the earlier peer object is dropped from the registry, not
     * reused.
     */
    method MakeRtcPeerConnection(id: PeerId) returns (p: Peer)
      requires Valid()
      modifies this`peers, this`created
      ensures Valid() && fresh(p) && fresh(p.latestMessageData)
      ensures Registered(id, p)
      ensures p.id == id && !p.ready && !p.channelOpen && p.sent == [] && p.State() == Idle
    {
      p := new Peer(id);
      peers := peers[id := p];
      created := created + {p};
    }

    /**
     * Removing an unknown id does nothing. Removing a known id closes that
     * peer's connection (its channel is no longer open), deletes only that
     * entry, and fires on_peer_left with the given time.
     */
    method RemovePeer(id: PeerId, time: int)
      requires Valid()
      modifies this`peers, this`events, peers.Values`channelOpen
      ensures Valid()
      ensures peers == old(peers) - {id}
      ensures id in old(peers) ==> !old(peers[id]).channelOpen && events == old(events) + [PeerLeft(id, time)]
      ensures id !in old(peers) ==> events == old(events)
      ensures forall q :: q in old(peers.Values) && (id in old(peers) ==> q != old(peers[id])) ==>
        q.channelOpen == old(q.channelOpen)
    {
      if id in peers {
        var p := peers[id];
        p.channelOpen := false;
        peers := peers - {id};
        events := events + [PeerLeft(id, time)];
      }
    }

    /** The effect of a peer-left notice for an id. */
    twostate predicate PeerLeftNoticed(id: PeerId, time: int)
      reads this
    {
      && peers == old(peers) - {id}
      && peersToJoin == old(peersToJoin) - {id}
      && JoinChecked(old(events) + if id in old(peers) then [PeerLeft(id, time)] else [])
      && myId == old(myId) && created == old(created)
    }

    /**
     * A peer-left notice: the peer is removed, it is no longer awaited, and
     * the guard is re-checked (the last awaited peer leaving connects the
     * room).
     */
    method OnPeerLeftNotice(departed: Address, time: int)
      requires Valid()
      modifies this`peers, this`peersToJoin, this`currentState, this`events, peers.Values`channelOpen
      ensures Valid()
      ensures PeerLeftNoticed(IdOf(departed), time)
      ensures IdOf(departed) in old(peers) ==> !old(peers[IdOf(departed)]).channelOpen
      ensures forall q :: q in old(peers.Values) && (IdOf(departed) in old(peers) ==> q != old(peers[IdOf(departed)])) ==>
        q.channelOpen == old(q.channelOpen)
    {
      var id := ComputeIdFromIp(departed);
      RemovePeer(id, time);
      peersToJoin := peersToJoin - {id};
      CheckIfJoined();
    }

    /**
     * Dispatch of one control message on its first truthy field. A peer
     * joining and an offer both register a fresh peer for the sender; an
     * answer and an ICE candidate only feed the negotiation, which is not
     * part of this model, and change nothing here.
     */
    method OnServerMessage(msg: ControlMessage)
      requires Valid()
      modifies this`currentState, this`peersToJoin, this`events, this`myId, this`peers, this`created
      modifies peers.Values`channelOpen
      ensures Valid()
      ensures msg.roomName != "" ==> EnteredRoom(msg.peers, msg.yourIp)
      ensures msg.roomName == "" && (msg.joinRoom != "" || msg.offer) ==>
        var id := IdOf(msg.sender);
        && id in peers && fresh(peers[id]) && Registered(id, peers[id])
        && !peers[id].ready && !peers[id].channelOpen && peers[id].State() == Idle
      ensures msg.roomName == "" && msg.joinRoom == "" && !msg.offer && (msg.answer || msg.newIceCandidate) ==>
        unchanged(this)
      ensures msg.roomName == "" && msg.joinRoom == "" && !msg.offer && !msg.answer && !msg.newIceCandidate ==>
        if msg.disconnectedPeerId.Some? then PeerLeftNoticed(IdOf(msg.disconnectedPeerId.value), msg.time)
        else unchanged(this)
      ensures msg.roomName != "" || msg.joinRoom != "" || msg.offer || msg.answer || msg.newIceCandidate
              || msg.disconnectedPeerId.None? ==>
        forall q :: q in old(peers.Values) ==> q.channelOpen == old(q.channelOpen)
      ensures msg.roomName == "" && msg.joinRoom == "" && !msg.offer && !msg.answer && !msg.newIceCandidate
              && msg.disconnectedPeerId.Some? ==>
        var id := IdOf(msg.disconnectedPeerId.value);
        && (id in old(peers) ==> !old(peers[id]).channelOpen)
        && forall q :: q in old(peers.Values) && (id in old(peers) ==> q != old(peers[id])) ==>
             q.channelOpen == old(q.channelOpen)
    {
      var senderId := ComputeIdFromIp(msg.sender);
      if msg.roomName != "" {
        EnterRoom(msg.peers, msg.yourIp);
      } else if msg.joinRoom != "" {
        var _ := MakeRtcPeerConnection(senderId);
      } else if msg.offer {
        var _ := MakeRtcPeerConnection(senderId);
      } else if msg.answer {
      } else if msg.newIceCandidate {
      } else if msg.disconnectedPeerId.Some? {
        OnPeerLeftNotice(msg.disconnectedPeerId.value, msg.time);
      }
    }

    /**
     * The control socket closed. If the room was not Disconnected,
     * on_peer_left fires once for every registered peer (in the registry's
     * order, given here as `departed`, all at the time `now`), then the
     * registry and the awaited set are emptied and on_state_change reports
     * Disconnected. If it already was Disconnected nothing changes. Either
     * way one reconnect is scheduled.
     */
    method OnServerClose(now: int) returns (ghost departed: seq<PeerId>)
      requires Valid()
      modifies this`peers, this`peersToJoin, this`currentState, this`events, this`reconnectsScheduled
      ensures Valid()
      ensures reconnectsScheduled == old(reconnectsScheduled) + 1
      ensures myId == old(myId) && created == old(created)
      ensures old(currentState) == Disconnected ==>
        && peers == old(peers) && peersToJoin == old(peersToJoin)
        && currentState == Disconnected && events == old(events) && departed == []
      ensures old(currentState) != Disconnected ==>
        && peers == map[] && peersToJoin == {} && currentState == Disconnected
        && (forall id :: id in departed <==> id in old(peers))
        && Distinct(departed)
        && events == old(events) + PeersLeft(departed, now) + [StateChanged(Disconnected)]
    {
      departed := [];
      if currentState != Disconnected {
        var keys := peers.Keys;
        while exists k :: k in keys
          invariant keys <= peers.Keys
          invariant forall id :: id in departed <==> id in peers.Keys - keys
          invariant Distinct(departed)
          invariant events == old(events) + PeersLeft(departed, now)
          invariant peers == old(peers) && currentState == old(currentState)
          invariant peersToJoin == old(peersToJoin) && reconnectsScheduled == old(reconnectsScheduled)
          decreases keys
        {
          var id :| id in keys;
          assert forall i :: 0 <= i < |departed| ==> departed[i] in departed;
          assert PeersLeft(departed + [id], now) == PeersLeft(departed, now) + [PeerLeft(id, now)];
          events := events + [PeerLeft(id, now)];
          departed := departed + [id];
          keys := keys - {id};
        }
        currentState := Disconnected;
        peersToJoin := {};
        peers := map[];
        events := events + [StateChanged(Disconnected)];
      }
      reconnectsScheduled := reconnectsScheduled + 1;
    }

    // -------------------------------------------------------------------
    // Sending
    // -------------------------------------------------------------------

    /**
     * Sends one payload to one peer: nothing if its channel is not open,
     * otherwise the frames Frames(gzip, data), in order, each built in the
     * scratch array and handed to the channel (which copies it).
     */
    method MessagePeerInner(p: Peer, data: Bytes)
      requires outgoingDataChunk.Length == MaxMessageSize + 5
      modifies p`sent, outgoingDataChunk
      ensures p.sent == old(p.sent) + (if p.channelOpen then Frames(gzip, data) else [])
    {
      if !p.channelOpen {
        return;
      }
      var messageType := SinglePart;
      var payload := data;
      if |payload| > MaxMessageSize {
        messageType := SinglePartGzipped;
        payload := gzip.encode(payload);
      }
      assert payload == Wire(gzip, data) && messageType == SingleTag(data);
      if |payload| > MaxMessageSize {
        assert Frames(gzip, data) == [StartFrame(payload)] + Continuations(payload[MaxMessageSize..]);
        SendFragments(p, payload);
      } else {
        assert Frames(gzip, data) == [[messageType] + payload];
        SendSingle(p, messageType, payload);
      }
    }

    /** The single-frame branch: the tag, then the bytes, in one frame. */
    method SendSingle(p: Peer, tag: byte, payload: Bytes)
      requires outgoingDataChunk.Length == MaxMessageSize + 5 && |payload| <= MaxMessageSize
      modifies p`sent, outgoingDataChunk
      ensures p.sent == old(p.sent) + [[tag] + payload]
    {
      var frame := BuildFrame(tag, payload);
      p.sent := p.sent + [frame];
    }

    /**
     * The fragmenting branch: the start frame (always the whole scratch
     * array), then a continuation frame per further MaxMessageSize bytes,
     * consuming the compressed bytes left to right.
     */
    method SendFragments(p: Peer, z: Bytes)
      requires outgoingDataChunk.Length == MaxMessageSize + 5 && |z| > MaxMessageSize
      modifies p`sent, outgoingDataChunk
      ensures p.sent == old(p.sent) + [StartFrame(z)] + Continuations(z[MaxMessageSize..])
    {
      var frame := BuildFrame(MultiPartStart, U32BE(|z| % U32Modulus) + z[..MaxMessageSize]);
      assert frame == StartFrame(z);
      p.sent := p.sent + [frame];
      var rest := z[MaxMessageSize..];
      ghost var goal := old(p.sent) + [StartFrame(z)] + Continuations(rest);
      while |rest| > 0
        invariant p.sent + Continuations(rest) == goal
        decreases |rest|
      {
        var n := Min(|rest|, MaxMessageSize);
        frame := BuildFrame(MultiPartContinuation, rest[..n]);
        ghost var sentBefore := p.sent;
        ContinuationsUnfold(rest);
        rest := rest[n..];
        p.sent := p.sent + [frame];
        assert p.sent + Continuations(rest) == sentBefore + ([frame] + Continuations(rest));
      }
    }

    /**
     * Writes a tag and a body into the front of the scratch array and
     * returns the written prefix, the bytes a send then copies.
     */
    method BuildFrame(tag: byte, body: Bytes) returns (frame: Bytes)
      requires outgoingDataChunk.Length == MaxMessageSize + 5 && |body| <= MaxMessageSize + 4
      modifies outgoingDataChunk
      ensures frame == [tag] + body
    {
      outgoingDataChunk[0] := tag;
      forall i | 0 <= i < |body| {
        outgoingDataChunk[1 + i] := body[i];
      }
      frame := outgoingDataChunk[..|body| + 1];
      assert frame == [tag] + body by {
        assert forall i :: 1 <= i < |frame| ==> frame[i] == body[i - 1];
      }
    }

    /**
     * Sends a payload to the peer with the given id, or, when the id is 0
     * (no target), to every ready peer. A targeted peer must be registered.
     * No reassembly buffer is touched.
     */
    method SendMessage(data: Bytes, peerId: PeerId)
      requires Valid()
      requires peerId != 0 ==> peerId in peers
      modifies peers.Values`sent, outgoingDataChunk
      ensures Valid()
      ensures peerId != 0 ==> forall id :: id in peers ==>
        peers[id].sent == old(peers[id].sent) + (if id == peerId && peers[id].channelOpen then Frames(gzip, data) else [])
      ensures peerId == 0 ==> forall id :: id in peers ==>
        peers[id].sent == old(peers[id].sent) + (if peers[id].ready && peers[id].channelOpen then Frames(gzip, data) else [])
      ensures forall q :: q in created ==> q.State() == old(q.State())
    {
      if peerId != 0 {
        MessagePeerInner(peers[peerId], data);
      } else {
        Broadcast(data);
      }
    }

    /** The untargeted branch: every ready peer, each once, in the registry's order. */
    method Broadcast(data: Bytes)
      requires Valid()
      modifies peers.Values`sent, outgoingDataChunk
      ensures Valid()
      ensures forall id :: id in peers ==>
        peers[id].sent == old(peers[id].sent) + (if peers[id].ready && peers[id].channelOpen then Frames(gzip, data) else [])
      ensures forall q :: q in created ==> q.State() == old(q.State())
    {
      var keys := peers.Keys;
      while exists k :: k in keys
        invariant keys <= peers.Keys
        invariant forall id :: id in peers && id !in keys ==>
          peers[id].sent == old(peers[id].sent) + (if peers[id].ready && peers[id].channelOpen then Frames(gzip, data) else [])
        invariant forall id :: id in keys ==> peers[id].sent == old(peers[id].sent)
        decreases keys
      {
        var id :| id in keys;
        var p := peers[id];
        if p.ready {
          MessagePeerInner(p, data);
        }
        keys := keys - {id};
      }
    }

    // -------------------------------------------------------------------
    // Receiving
    // -------------------------------------------------------------------

    /**
     * A multi-part chunk for peer p, in place: copied into its buffer at its
     * offset (a range error, with nothing changed, if it does not fit), the
     * offset advanced, and on completion the decompressed buffer delivered
     * and the state reset.
     */
    method MultipartDataReceived(p: Peer, chunk: Bytes) returns (fault: bool)
      requires Valid() && p in created
      modifies this`delivered, p`latestMessageData, p`latestMessageOffset, p.latestMessageData
      ensures Valid()
      ensures var res := MultipartReceived(gzip, old(p.State()), chunk);
        && p.State() == res.state && fault == res.fault
        && delivered == old(delivered) + Deliveries(p.id, res.message)
      ensures forall q :: q in created && q != p ==> q.State() == old(q.State())
    {
      fault := false;
      var offset := p.latestMessageOffset;
      if offset + |chunk| > p.latestMessageData.Length {
        fault := true;
        return;
      }
      forall i | 0 <= i < |chunk| {
        p.latestMessageData[offset + i] := chunk[i];
      }
      ghost var before := old(p.State());
      assert p.latestMessageData[..] == before.data[..offset] + chunk + before.data[offset + |chunk|..];
      p.latestMessageOffset := offset + |chunk|;
      if p.latestMessageOffset == p.latestMessageData.Length {
        var message := gzip.decode(p.latestMessageData[..]);
        delivered := delivered + [Delivery(p.id, message)];
        p.latestMessageOffset := 0;
        p.latestMessageData := new byte[0];
      }
    }

    /**
     * A frame arrived on peer p's data channel. It is discarded unless a
     * peer with p's id is registered; otherwise it is decoded as Receive
     * states, on p's own reassembly state. `fault` reports a range error
     * escaping the handler. No other peer's reassembly state changes.
     */
    method OnDataChannelMessage(p: Peer, frame: Bytes) returns (fault: bool)
      requires Valid() && p in created
      modifies this`delivered, p`latestMessageData, p`latestMessageOffset, p.latestMessageData
      ensures Valid()
      ensures old(p.id in peers) ==>
        var res := Receive(gzip, old(p.State()), frame);
        && p.State() == res.state && fault == res.fault
        && delivered == old(delivered) + Deliveries(p.id, res.message)
      ensures old(p.id !in peers) ==>
        p.State() == old(p.State()) && !fault && delivered == old(delivered)
      ensures forall q :: q in created && q != p ==> q.State() == old(q.State())
    {
      fault := false;
      if p.id !in peers || |frame| == 0 {
        return;
      }
      if frame[0] == SinglePart {
        delivered := delivered + [Delivery(p.id, frame[1..])];
      } else if frame[0] == SinglePartGzipped {
        delivered := delivered + [Delivery(p.id, gzip.decode(frame[1..]))];
      } else if frame[0] == MultiPartStart {
        if |frame| < 5 {
          fault := true;
        } else {
          var length := ReadU32(frame[1..5]);
          p.latestMessageData := new byte[length](_ => 0);
          assert p.State() == Reassembly(Zeros(length), old(p.latestMessageOffset));
          fault := MultipartDataReceived(p, frame[5..]);
        }
      } else if frame[0] == MultiPartContinuation {
        fault := MultipartDataReceived(p, frame[1..]);
      }
    }
  }
}
