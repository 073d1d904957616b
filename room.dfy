/**
 * `ChatRoom`: one room's members as two parallel lists, `clients` (sockets)
 * and `users` (usernames), with join and leave announcements and
 * best-effort broadcast. The spec functions on `RoomState` say what each
 * method does to the lists; the lemmas say what that means for membership.
 */
module Room {
  import opened Wrappers
  import opened Lists
  import opened Rsa
  import opened Protocol

  datatype RoomState = RoomState(clients: seq<Socket>, users: seq<string>)

  /**
   * What the server keeps true of every room: usernames never repeat, and
   * there are never more sockets than names (a departing member with an
   * empty username leaves the name behind, so the lists can differ).
   */
  predicate Consistent(st: RoomState) {
    |st.clients| <= |st.users| && Distinct(st.users)
  }

  /** The code-200 notice the other members get when someone joins. */
  function JoinedNotice(username: string): Message {
    SystemMessage("green", username + " has joined the chat room.", Ok, None, None, None, None)
  }

  /** The code-400 notice the other members get when someone leaves. */
  function LeftNotice(username: string, room: string): Message {
    SystemMessage("red", username + " has left the chat room.", MemberLeft, Some(username), Some(room), None, None)
  }

  /** `add_client`: both lists grow by one at the end. */
  function Admit(st: RoomState, ws: Socket, username: string): RoomState {
    RoomState(st.clients + [ws], st.users + [username])
  }

  /** The username `remove_client` finds for `ws`: the first socket match of `zip(users, clients)`. */
  function NameOf(st: RoomState, ws: Socket): string
    requires Consistent(st) && ws in st.clients
  {
    st.users[IndexOf(st.clients, ws)]
  }

  /**
   * `remove_client`: nothing for a non-member; otherwise the first
   * occurrence of the socket goes, and its username goes too unless it is
   * the empty string (`if username:`).
   */
  function Depart(st: RoomState, ws: Socket): (r: RoomState)
    requires Consistent(st)
    ensures Consistent(r)
  {
    if ws !in st.clients then st
    else
      var username := NameOf(st, ws);
      RemoveFirstDistinct(st.users, username);
      RoomState(RemoveFirst(st.clients, ws),
                if username != "" then RemoveFirst(st.users, username) else st.users)
  }

  /** The goodbye broadcast `remove_client` makes before removing the member. */
  function DepartureLog(st: RoomState, ws: Socket, room: string, failing: set<Socket>): seq<Attempt>
    requires Consistent(st)
  {
    if ws !in st.clients then []
    else Fanout(st.clients, ws, LeftNotice(NameOf(st, ws), room), failing)
  }

  /** A join with a fresh username keeps the room consistent and binds the pair at the end. */
  lemma AdmitConsistent(st: RoomState, ws: Socket, username: string)
    requires Consistent(st) && username !in st.users
    ensures Consistent(Admit(st, ws, username))
    ensures |Admit(st, ws, username).clients| == |st.clients| + 1
    ensures |Admit(st, ws, username).users| == |st.users| + 1
    ensures ws in Admit(st, ws, username).clients && username in Admit(st, ws, username).users
  {
    AppendDistinct(st.users, username);
  }

  /** Leaving a room one is not in changes nothing and sends nothing. */
  lemma DepartNonMember(st: RoomState, ws: Socket, room: string, failing: set<Socket>)
    requires Consistent(st) && ws !in st.clients
    ensures Depart(st, ws) == st
    ensures DepartureLog(st, ws, room, failing) == []
  {
  }

  /**
   * A member with a non-empty username leaves as a pair: socket and name are
   * removed at the same position, every other entry keeps its order, and the
   * room stays consistent.
   */
  lemma DepartRemovesPair(st: RoomState, ws: Socket)
    requires Consistent(st) && ws in st.clients && NameOf(st, ws) != ""
    ensures var i := IndexOf(st.clients, ws);
            Depart(st, ws) == RoomState(st.clients[..i] + st.clients[i + 1..], st.users[..i] + st.users[i + 1..])
    ensures Consistent(Depart(st, ws))
    ensures NameOf(st, ws) !in Depart(st, ws).users
  {
    var i := IndexOf(st.clients, ws);
    IndexOfDistinct(st.users, i);
    RemoveFirstDistinct(st.users, st.users[i]);
  }

  /**
   * A departure takes exactly one binding of the socket out of `clients`
   * (none if it was not there) and leaves every other socket's bindings alone.
   */
  lemma DepartCount(st: RoomState, ws: Socket)
    requires Consistent(st)
    ensures multiset(Depart(st, ws).clients) == multiset(st.clients) - multiset{ws}
  {
    if ws in st.clients {
      RemoveFirstMultiset(st.clients, ws);
    } else {
      assert multiset(st.clients)[ws] == 0;
    }
  }

  /**
   * Source behaviour kept: a member whose username is empty leaves its name
   * behind. Its socket goes, the name stays, the lists fall out of step, and
   * the empty name stays taken in that room.
   */
  lemma DepartEmptyName(ws: Socket, other: Socket)
    requires ws != other
    ensures var st := RoomState([ws, other], ["", "bob"]);
            && Consistent(st)
            && Depart(st, ws) == RoomState([other], ["", "bob"])
            && NameOf(Depart(st, ws), other) == ""
  {
    var st := RoomState([ws, other], ["", "bob"]);
    assert IndexOf(st.clients, ws) == 0;
    var after := RoomState([other], ["", "bob"]);
    assert RemoveFirst(st.clients, ws) == [other];
    assert IndexOf(after.clients, other) == 0;
  }

  /**
   * Source behaviour kept: nothing stops one socket from joining a room twice
   * under two names, and one departure removes only the first binding.
   */
  lemma DoubleJoinSurvivesDeparture(ws: Socket, a: string, b: string)
    requires a != b && a != ""
    ensures var st := Admit(Admit(RoomState([], []), ws, a), ws, b);
            && Consistent(st)
            && Depart(st, ws) == RoomState([ws], [b])
  {
    var st := Admit(Admit(RoomState([], []), ws, a), ws, b);
    assert st == RoomState([ws, ws], [a, b]);
    assert IndexOf(st.clients, ws) == 0;
    assert IndexOf(st.users, a) == 0;
  }

  class ChatRoom {
    const name: string
    const keys: KeyPair
    var clients: seq<Socket>
    var users: seq<string>

    function State(): RoomState
      reads this
    {
      RoomState(clients, users)
    }

    ghost predicate Valid()
      reads this
    {
      Consistent(State())
    }

    /** `ChatRoom(room_name)`; the key pair `rsa.newkeys(1024)` draws is a parameter. */
    constructor (name: string, keys: KeyPair)
      ensures this.name == name && this.keys == keys
      ensures State() == RoomState([], []) && Valid()
    {
      this.name := name;
      this.keys := keys;
      clients := [];
      users := [];
    }

    /** `broadcast_message`: one send per member other than the sender; failures are swallowed. */
    method Broadcast(frame: Message, sender: Socket, net: Transport)
      modifies net
      ensures net.failing == old(net.failing)
      ensures net.log == old(net.log) + Fanout(clients, sender, frame, net.failing)
    {
      for i := 0 to |clients|
        invariant net.failing == old(net.failing)
        invariant net.log == old(net.log) + Fanout(clients[..i], sender, frame, net.failing)
      {
        SliceSnoc(clients, i);
        FanoutSnoc(clients[..i], clients[i], sender, frame, net.failing);
        if clients[i] != sender {
          var _ := net.Send(clients[i], frame);
        }
      }
      SliceAll(clients);
    }

    /** `add_client`: append the pair, then announce the join to everybody else. */
    method AddClient(ws: Socket, username: string, net: Transport)
      requires Valid() && username !in users
      modifies this, net
      ensures Valid()
      ensures State() == Admit(old(State()), ws, username)
      ensures net.failing == old(net.failing)
      ensures net.log == old(net.log) + Fanout(clients, ws, JoinedNotice(username), net.failing)
    {
      AdmitConsistent(State(), ws, username);
      clients := clients + [ws];
      users := users + [username];
      Broadcast(JoinedNotice(username), ws, net);
    }

    /** `remove_client`: find the member's name, say goodbye to the others, then unbind it. */
    method RemoveClient(ws: Socket, net: Transport)
      requires Valid()
      modifies this, net
      ensures Valid()
      ensures State() == Depart(old(State()), ws)
      ensures net.failing == old(net.failing)
      ensures net.log == old(net.log) + DepartureLog(old(State()), ws, name, net.failing)
    {
      if ws in clients {
        var i := 0;
        while clients[i] != ws
          invariant i <= IndexOf(clients, ws)
          decreases IndexOf(clients, ws) - i
        {
          i := i + 1;
        }
        var username := users[i];
        Broadcast(LeftNotice(username, name), ws, net);
        clients := RemoveFirst(clients, ws);
        if username != "" {
          users := RemoveFirst(users, username);
        }
      }
    }

    /** `is_empty`: no socket is bound, whatever names were left behind. */
    function IsEmpty(): (empty: bool)
      reads this
      ensures empty <==> forall s :: s !in clients
    {
      if |clients| == 0 then true
      else assert clients[0] in clients; false
    }
  }
}
