/**
 * The wire protocol: one JSON object per frame, modelled as a closed union of
 * the six message kinds, and the sending side of the connections. Sockets are
 * opaque handles; every send is recorded, with whether it raised.
 */
module Protocol {
  import opened Wrappers

  /** An opaque handle to one websocket connection. */
  datatype Socket = Socket(id: nat)

  /**
   * One frame. Fields whose value is fixed by the kind (`type`, and `code`
   * outside SYSTEM_MESSAGE) are implied by the constructor; a field a
   * sender may omit is an `Option` (the server reads `public_key` only after
   * admitting the joiner, so a JOIN_ROOM without it is still a frame). On
   * the wire `mediaRoom` is `room`, `leftUser`/`leftRoom` are
   * `username`/`room` and `roomPublic`/`roomPrivate` are
   * `public_key`/`private_key`.
   */
  datatype Message =
    | JoinRoom(username: string, room: string, publicKey: Option<string>)
    | LeaveRoom(username: string, room: string)
    | ChatMessage(username: string, room: string, message: string)
    | MediaMessage(username: string, mediaRoom: Option<string>, message: string, filename: FileName)
    | SystemMessage(color: string, text: string, code: int, leftUser: Option<string>,
                    leftRoom: Option<string>, roomPublic: Option<string>, roomPrivate: Option<string>)
    | UserMessage(color: string, username: string, message: string)

  /**
   * The `filename` field of a MEDIA_MESSAGE: missing, JSON `null`, or a
   * string. Indexing a missing field raises, `.get` falls back on a default,
   * and `null` reads as `None`; the three readers treat the cases apart.
   */
  datatype FileName = NoFileName | NullFileName | FileNamed(name: string)

  /** Status codes carried by SYSTEM_MESSAGE. */
  const Ok: int := 200
  const MemberLeft: int := 400
  const Conflict: int := 409

  /** One `websocket.send` call and whether it went through. */
  datatype Attempt = Attempt(to: Socket, frame: Message, delivered: bool)

  /**
   * The server's side of all connections: the sends made so far, in order,
   * and the sockets on which a send raises (closed or broken connections).
   */
  class Transport {
    var log: seq<Attempt>
    var failing: set<Socket>

    constructor (failing: set<Socket>)
      ensures log == [] && this.failing == failing
    {
      log := [];
      this.failing := failing;
    }

    /** Send one frame on a socket: `false` when the send raises. */
    method Send(to: Socket, frame: Message) returns (ok: bool)
      modifies this
      ensures ok <==> to !in failing
      ensures failing == old(failing)
      ensures log == old(log) + [Attempt(to, frame, ok)]
    {
      ok := to !in failing;
      log := log + [Attempt(to, frame, ok)];
    }
  }

  /**
   * The sends of one best-effort broadcast: one attempt per member other
   * than the sender, in list order, each delivered unless that socket fails.
   */
  function Fanout(members: seq<Socket>, sender: Socket, frame: Message, failing: set<Socket>): (r: seq<Attempt>)
  {
    if members == [] then []
    else
      var last := members[|members| - 1];
      Fanout(members[..|members| - 1], sender, frame, failing)
        + (if last != sender then [Attempt(last, frame, last !in failing)] else [])
  }

  /** A broadcast over one more member adds that member's send, if it is not the sender. */
  lemma FanoutSnoc(members: seq<Socket>, last: Socket, sender: Socket, frame: Message, failing: set<Socket>)
    ensures Fanout(members + [last], sender, frame, failing)
            == Fanout(members, sender, frame, failing) + (if last != sender then [Attempt(last, frame, last !in failing)] else [])
  {
    assert (members + [last])[..|members|] == members;
  }

  /** The members, in order, that a broadcast from `sender` is addressed to. */
  function Others(members: seq<Socket>, sender: Socket): (r: seq<Socket>)
    ensures forall i :: 0 <= i < |r| ==> r[i] in members && r[i] != sender
    ensures forall s :: s in members && s != sender ==> s in r
  {
    if members == [] then []
    else
      var last := members[|members| - 1];
      var init := members[..|members| - 1];
      assert forall s :: s in members ==> s in init || s == last;
      Others(init, sender) + (if last != sender then [last] else [])
  }

  /**
   * Fan-out skips exactly the sender and nobody else, keeps list order, and
   * a failed send neither stops later sends nor hides them: attempt `i` goes
   * to the `i`-th other member and is delivered iff that socket does not fail.
   */
  lemma {:induction false} FanoutAddresses(members: seq<Socket>, sender: Socket, frame: Message, failing: set<Socket>)
    ensures var r := Fanout(members, sender, frame, failing);
            |r| == |Others(members, sender)| &&
            forall i :: 0 <= i < |r| ==>
              r[i] == Attempt(Others(members, sender)[i], frame, Others(members, sender)[i] !in failing)
  {
    if members != [] {
      FanoutAddresses(members[..|members| - 1], sender, frame, failing);
    }
  }

  /** A room of N distinct members broadcasting from one of them reaches N - 1 sockets. */
  lemma {:induction false} OthersCount(members: seq<Socket>, sender: Socket)
    requires forall i, j :: 0 <= i < j < |members| ==> members[i] != members[j]
    ensures |Others(members, sender)| == if sender in members then |members| - 1 else |members|
  {
    if members != [] {
      var init := members[..|members| - 1];
      var last := members[|members| - 1];
      OthersCount(init, sender);
      assert sender in members <==> sender in init || sender == last;
      if sender == last {
        assert sender !in init by {
          forall i | 0 <= i < |init| ensures init[i] != sender { assert init[i] == members[i]; }
        }
      }
    }
  }

  /** Every delivery in a fan-out reached a member other than the sender whose socket works. */
  lemma FanoutDelivered(members: seq<Socket>, sender: Socket, frame: Message, failing: set<Socket>, s: Socket)
    ensures Attempt(s, frame, true) in Fanout(members, sender, frame, failing)
            <==> s in members && s != sender && s !in failing
  {
    FanoutAddresses(members, sender, frame, failing);
    var r := Fanout(members, sender, frame, failing);
    var o := Others(members, sender);
    if s in members && s != sender && s !in failing {
      var i :| 0 <= i < |o| && o[i] == s;
      assert r[i] == Attempt(s, frame, true);
    }
  }
}
