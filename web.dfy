/**
 * The browser bridge: a Flask-SocketIO process that opens one server
 * connection per browser user. Its globals are the registry
 * `clients[room][username]` of those connections and the room keys; its
 * receive loop forwards frames to the browser (`emit`) instead of printing.
 */
module Web {
  import opened Wrappers
  import opened Octets
  import opened Utf8
  import opened Rsa
  import opened Protocol
  import opened Peer
  import KeyExchange
  import Server

  /** One `ChatClient` object of the bridge: the user and room it was created for. */
  datatype Member = Member(username: string, room: string)

  /** The global `clients`: room name to user name to connection. */
  type Registry = map<string, map<string, Member>>

  /** What the bridge does that others can observe. */
  datatype Effect =
    | Sent(frame: Message)                  // `websocket.send` on one member's connection
    | Emitted(frame: Message)               // `emit('message_received', ...)` to the browser
    | Saved(filename: string, data: Bytes)  // a media file written under `received_media`

  /** Every entry is the connection created for its own room and user name. */
  ghost predicate Consistent(clients: Registry) {
    forall room, user :: room in clients && user in clients[room] ==> clients[room][user] == Member(user, room)
  }

  predicate Registered(clients: Registry, room: string, username: string) {
    room in clients && username in clients[room]
  }

  // The registry

  /** `handle_join`: register the user unless the room already has that name. */
  function Joined(clients: Registry, username: string, room: string): (r: Registry)
  {
    if room in clients then
      if username !in clients[room] then clients[room := clients[room][username := Member(username, room)]]
      else clients
    else clients[room := map[username := Member(username, room)]]
  }

  /**
   * A join inserts the name into an existing room, leaves an existing entry
   * as it was, or creates the room holding just that name; no other room
   * changes, and the registry stays consistent.
   */
  lemma JoinedRegistry(clients: Registry, username: string, room: string)
    ensures var r := Joined(clients, username, room);
            && r.Keys == clients.Keys + {room}
            && Registered(r, room, username)
            && (Registered(clients, room, username) ==> r == clients)
            && (room in clients && username !in clients[room] ==>
                  r[room] == clients[room][username := Member(username, room)])
            && (room !in clients ==> r[room] == map[username := Member(username, room)])
            && (forall n :: n in clients && n != room ==> r[n] == clients[n])
            && (Consistent(clients) ==> Consistent(r))
  {
  }

  /** `user_disconnect` on the registry: `None` for the KeyError of an unknown user. */
  function Disconnected(clients: Registry, room: string, username: string): (r: Option<Registry>)
  {
    if Registered(clients, room, username) then Some(clients[room := clients[room] - {username}]) else None
  }

  /**
   * Disconnecting removes exactly that user's entry, keeps the room even
   * when it becomes empty, and fails exactly for a user not registered.
   */
  lemma DisconnectedRegistry(clients: Registry, room: string, username: string)
    ensures var r := Disconnected(clients, room, username);
            && (r.Some? <==> Registered(clients, room, username))
            && (r.Some? ==>
                  && r.value.Keys == clients.Keys
                  && r.value[room].Keys == clients[room].Keys - {username}
                  && (forall u :: u in r.value[room] ==> r.value[room][u] == clients[room][u])
                  && (forall n :: n in clients && n != room ==> r.value[n] == clients[n])
                  && (Consistent(clients) ==> Consistent(r.value)))
  {
  }

  /**
   * `handle_message`: the connection registered for the user builds the
   * frame exactly as the console client does; `None` for the KeyError of an
   * unknown user.
   */
  function Posted(sc: Scheme, clients: Registry, keys: RoomKeys, text: string, room: string, username: string,
                  read: string -> Option<Bytes>): (r: Option<Sending>)
  {
    if !Registered(clients, room, username) then None
    else
      var m := clients[room][username];
      Some(Build(sc, text, m.username, m.room, keys.pub, read))
  }

  /**
   * In a consistent registry, the bridge runs the console client's `Build`
   * on the line, under the registered name and room. (Block encryption is a
   * function of the model; the library pads at random, so the bytes sent
   * differ from run to run.)
   */
  lemma PostedLikeConsole(sc: Scheme, clients: Registry, keys: RoomKeys, text: string, room: string,
                          username: string, read: string -> Option<Bytes>)
    requires Consistent(clients)
    ensures Posted(sc, clients, keys, text, room, username, read).Some? <==> Registered(clients, room, username)
    ensures Registered(clients, room, username) ==>
              Posted(sc, clients, keys, text, room, username, read) == Some(Build(sc, text, username, room, keys.pub, read))
  {
  }

  // The receive loop

  /** The receive loop's state: the globals, what was done, and whether it goes on. */
  datatype Session = Session(clients: Registry, keys: RoomKeys, effects: seq<Effect>, open: bool)

  /**
   * One pass of the bridge's receive loop. Every system message is first
   * forwarded; a 409 is left to the browser, a 400 drops the departed user
   * from the registry (an unknown one raises and ends the loop), and any
   * other system message installs the room keys if none are held.
   */
  function Receive(sc: Scheme, own: KeyPair, s: Session, frame: Message): (r: Session)
  {
    match frame
    case SystemMessage(_, _, code, leftUser, leftRoom, publicField, privateField) =>
      var forwarded := s.(effects := s.effects + [Emitted(frame)]);
      if code == Conflict then forwarded
      else if code == MemberLeft then
        if leftRoom.None? || leftUser.None? || !Registered(s.clients, leftRoom.value, leftUser.value) then
          forwarded.(open := false)
        else
          forwarded.(clients := s.clients[leftRoom.value := s.clients[leftRoom.value] - {leftUser.value}])
      else if Installed(s.keys) then forwarded
      else
        var (keys, ok) := Install(sc, own.priv, publicField, privateField);
        forwarded.(keys := keys, open := ok)
    case UserMessage(color, username, text) =>
      if text == [] then s
      else (
        match ReadChat(sc, s.keys, text)
        case None => s.(open := false)
        case Some(plain) => s.(effects := s.effects + [Emitted(UserMessage(color, username, plain))]))
    case MediaMessage(_, _, text, filename) =>
      var forwarded := s.(effects := s.effects + [Emitted(frame)]);
      (match FromHex(text)
       case None => forwarded.(open := false)
       case Some(data) =>
         match MediaName(filename)
         case None => forwarded.(open := false)
         case Some(name) => forwarded.(effects := forwarded.effects + [Saved(name, data), Emitted(frame)]))
    case _ => s
  }

  /** `receive_messages` over a finite stream of frames, until one ends the loop. */
  function Run(sc: Scheme, own: KeyPair, start: Session, frames: seq<Message>): Session
    decreases |frames|
  {
    if frames == [] then start
    else
      var before := Run(sc, own, start, frames[..|frames| - 1]);
      if !before.open then before else Receive(sc, own, before, frames[|frames| - 1])
  }

  lemma RunSnoc(sc: Scheme, own: KeyPair, start: Session, frames: seq<Message>, k: nat)
    requires k < |frames|
    ensures var before := Run(sc, own, start, frames[..k]);
            Run(sc, own, start, frames[..k + 1]) == if !before.open then before else Receive(sc, own, before, frames[k])
  {
    assert frames[..k + 1][..k] == frames[..k];
  }

  /** Once the loop has ended, later frames are never read. */
  lemma {:induction false} RunClosed(sc: Scheme, own: KeyPair, start: Session, frames: seq<Message>, k: nat)
    requires k <= |frames| && !Run(sc, own, start, frames[..k]).open
    ensures Run(sc, own, start, frames) == Run(sc, own, start, frames[..k])
    decreases |frames|
  {
    if k < |frames| {
      var init := frames[..|frames| - 1];
      assert init[..k] == frames[..k];
      RunClosed(sc, own, start, init, k);
    } else {
      assert frames[..k] == frames;
    }
  }

  // Properties of the receive loop

  /** A 409 is forwarded to the browser and nothing else happens: no new JOIN_ROOM is sent. */
  lemma ConflictForwarded(sc: Scheme, own: KeyPair, s: Session, color: string, text: string,
                          leftUser: Option<string>, leftRoom: Option<string>, publicField: Option<string>,
                          privateField: Option<string>)
    ensures var frame := SystemMessage(color, text, Conflict, leftUser, leftRoom, publicField, privateField);
            Receive(sc, own, s, frame) == s.(effects := s.effects + [Emitted(frame)])
  {
  }

  /**
   * A 400 removes the departed user from the registry when the bridge has
   * that user; a departure the bridge does not know (a user of another
   * program, or one already removed) raises KeyError and ends the loop.
   */
  lemma GoodbyeRemoves(sc: Scheme, own: KeyPair, s: Session, color: string, text: string, user: string,
                       room: string, publicField: Option<string>, privateField: Option<string>)
    requires s.open
    ensures var frame := SystemMessage(color, text, MemberLeft, Some(user), Some(room), publicField, privateField);
            var r := Receive(sc, own, s, frame);
            && (r.open <==> Registered(s.clients, room, user))
            && r.effects == s.effects + [Emitted(frame)]
            && r.keys == s.keys
            && (Registered(s.clients, room, user) ==> Some(r.clients) == Disconnected(s.clients, room, user))
            && (!Registered(s.clients, room, user) ==> r.clients == s.clients)
  {
  }

  /** The receive loop keeps every registry entry tied to its own room and user name. */
  lemma ReceiveConsistent(sc: Scheme, own: KeyPair, s: Session, frame: Message)
    requires Consistent(s.clients)
    ensures Consistent(Receive(sc, own, s, frame).clients)
  {
    if frame.SystemMessage? && frame.code == MemberLeft && frame.leftRoom.Some? && frame.leftUser.Some?
       && Registered(s.clients, frame.leftRoom.value, frame.leftUser.value) {
      DisconnectedRegistry(s.clients, frame.leftRoom.value, frame.leftUser.value);
    }
  }

  /** Keys already installed are never replaced, whatever frame arrives. */
  lemma ReceiveKeepsKeys(sc: Scheme, own: KeyPair, s: Session, frame: Message)
    requires Installed(s.keys)
    ensures Receive(sc, own, s, frame).keys == s.keys
  {
  }

  /** Room keys are installed at most once over a whole run. */
  lemma {:induction false} RunKeepsKeys(sc: Scheme, own: KeyPair, start: Session, frames: seq<Message>)
    ensures Installed(start.keys) ==> Run(sc, own, start, frames).keys == start.keys
    ensures Run(sc, own, start, frames).keys != start.keys ==> !Installed(start.keys)
    decreases |frames|
  {
    if frames != [] {
      var before := Run(sc, own, start, frames[..|frames| - 1]);
      RunKeepsKeys(sc, own, start, frames[..|frames| - 1]);
      if Installed(start.keys) && before.open {
        ReceiveKeepsKeys(sc, own, before, frames[|frames| - 1]);
      }
    }
  }

  /** The server's welcome, received before any keys, installs exactly the room's key pair. */
  lemma WelcomeInstallsRoomKeys(sc: Scheme, own: KeyPair, s: Session, roomKeys: KeyPair)
    requires sc.Valid() && Matches(own.pub, own.priv) && ByteSize(own.pub.n) > PaddingOverhead
    requires s.keys == NoKeys && s.open
    ensures var publicField := KeyExchange.SealText(sc, sc.savePublic(roomKeys.pub), own.pub);
            var privateField := KeyExchange.SealText(sc, sc.savePrivate(roomKeys.priv), own.pub);
            && publicField.Success? && privateField.Success?
            && var frame := Server.Welcome(publicField.value, privateField.value);
               Receive(sc, own, s, frame)
               == s.(keys := RoomKeys(Some(roomKeys.pub), Some(roomKeys.priv)), effects := s.effects + [Emitted(frame)])
  {
    var publicField := KeyExchange.SealText(sc, sc.savePublic(roomKeys.pub), own.pub);
    var privateField := KeyExchange.SealText(sc, sc.savePrivate(roomKeys.priv), own.pub);
    assert publicField.Success? && privateField.Success?
           && Install(sc, own.priv, Some(publicField.value), Some(privateField.value))
              == (RoomKeys(Some(roomKeys.pub), Some(roomKeys.priv)), true) by {
      InstallWelcome(sc, roomKeys, own);
    }
  }

  /**
   * End to end for chat: an ASCII line built by any member and relayed by
   * the server is forwarded to the browser in clear, under the sender's name.
   */
  lemma ChatForwarded(sc: Scheme, own: KeyPair, s: Session, roomKeys: KeyPair, text: string, sender: string,
                      room: string, read: string -> Option<Bytes>)
    requires sc.Valid() && Matches(roomKeys.pub, roomKeys.priv) && ByteSize(roomKeys.pub.n) > PaddingOverhead
    requires IsAscii(text) && text != [] && !StartsWith(text, MediaCommand)
    requires s.keys.priv == Some(roomKeys.priv)
    ensures var out := Build(sc, text, sender, room, Some(roomKeys.pub), read);
            && out.Send? && out.frame.ChatMessage?
            && Receive(sc, own, s, Server.ChatRelay(sender, out.frame.message))
               == s.(effects := s.effects + [Emitted(UserMessage("blue", sender, text))])
  {
    ChatBuilt(sc, text, sender, room, roomKeys, read);
    var out := Build(sc, text, sender, room, Some(roomKeys.pub), read);
    assert out.frame.message != [] by {
      KeyExchange.RoundTrip(sc, text, roomKeys.pub, roomKeys.priv);
      var crypto := KeyExchange.Encrypt(sc, text, roomKeys.pub).value;
      assert |crypto| > 0 by {
        KeyExchange.ChunkCount(text, ByteSize(roomKeys.pub.n) - PaddingOverhead);
      }
      HexIsCanonical(crypto);
    }
  }

  /**
   * Incoming media is forwarded to the browser, saved as the bytes its hex
   * payload spells (under "unknown" when the frame has no filename), and
   * forwarded once more; a payload that is not hex, or a `null` filename,
   * ends the loop after the first forward.
   */
  lemma MediaForwarded(sc: Scheme, own: KeyPair, s: Session, sender: string, mediaRoom: Option<string>,
                       text: string, filename: FileName)
    ensures var frame := MediaMessage(sender, mediaRoom, text, filename);
            var r := Receive(sc, own, s, frame);
            var saved := FromHex(text).Some? && !filename.NullFileName?;
            && r.clients == s.clients && r.keys == s.keys
            && (r.open <==> s.open && saved)
            && (!saved ==> r.effects == s.effects + [Emitted(frame)])
            && (saved && filename.FileNamed? ==>
                  r.effects == s.effects + [Emitted(frame), Saved(filename.name, FromHex(text).value), Emitted(frame)])
            && (saved && filename.NoFileName? ==>
                  r.effects == s.effects + [Emitted(frame), Saved("unknown", FromHex(text).value), Emitted(frame)])
  {
  }

  /** The bridge process: its globals, and its own key pair. */
  class Bridge {
    var clients: Registry
    var keys: RoomKeys
    var effects: seq<Effect>
    const own: KeyPair

    ghost predicate Valid()
      reads this
    {
      Consistent(clients)
    }

    function State(open: bool): Session
      reads this
    {
      Session(clients, keys, effects, open)
    }

    constructor (own: KeyPair)
      ensures Valid() && this.own == own
      ensures clients == map[] && keys == NoKeys && effects == []
    {
      this.own := own;
      clients := map[];
      keys := NoKeys;
      effects := [];
    }

    /**
     * `handle_join`: register the user, then `connect_to_server` connects and
     * sends the JOIN_ROOM. `delivered` says whether the connection and the
     * send succeed; when they raise, the entry stays registered and nothing
     * is sent.
     */
    method HandleJoin(username: string, room: string, sc: Scheme, delivered: bool)
      requires Valid()
      modifies this
      ensures Valid()
      ensures clients == Joined(old(clients), username, room) && keys == old(keys)
      ensures delivered ==> effects == old(effects) + [Sent(JoinRoom(username, room, Some(sc.savePublic(own.pub))))]
      ensures !delivered ==> effects == old(effects)
    {
      JoinedRegistry(clients, username, room);
      var member := Member(username, room);
      if room in clients {
        if username !in clients[room] {
          clients := clients[room := clients[room][username := member]];
        }
      } else {
        clients := clients[room := map[username := member]];
      }
      if delivered {
        effects := effects + [Sent(JoinRoom(member.username, member.room, Some(sc.savePublic(own.pub))))];
      }
    }

    /**
     * `handle_message`: `None` when the user is not registered (KeyError);
     * otherwise the line is built and, unless skipped or crashed, sent.
     * `delivered` says whether that send succeeds.
     */
    method HandleMessage(text: string, room: string, username: string, read: string -> Option<Bytes>, sc: Scheme,
                         delivered: bool)
      returns (out: Option<Sending>)
      requires Valid()
      modifies this
      ensures Valid() && clients == old(clients) && keys == old(keys)
      ensures out == Posted(sc, clients, keys, text, room, username, read)
      ensures effects == old(effects) + (if delivered && out.Some? && out.value.Send? then [Sent(out.value.frame)] else [])
    {
      if room !in clients || username !in clients[room] {
        return None;
      }
      var client := clients[room][username];
      var built := Build(sc, text, client.username, client.room, keys.pub, read);
      if built.Send? && delivered {
        effects := effects + [Sent(built.frame)];
      }
      out := Some(built);
    }

    /**
     * `user_disconnect`: send LEAVE_ROOM on the user's connection, then
     * delete its entry. `false` when the user is not registered (KeyError),
     * or when the send raises (`delivered` is false): the deletion is then
     * never reached and the entry stays.
     */
    method UserDisconnect(room: string, username: string, delivered: bool) returns (ok: bool)
      requires Valid()
      modifies this
      ensures Valid() && keys == old(keys)
      ensures ok <==> Registered(old(clients), room, username) && delivered
      ensures ok ==> Some(clients) == Disconnected(old(clients), room, username)
                     && effects == old(effects) + [Sent(LeaveRoom(username, room))]
      ensures !ok ==> clients == old(clients) && effects == old(effects)
    {
      if room !in clients || username !in clients[room] || !delivered {
        return false;
      }
      var client := clients[room][username];
      effects := effects + [Sent(LeaveRoom(client.username, client.room))];
      DisconnectedRegistry(clients, room, username);
      clients := clients[room := clients[room] - {username}];
      ok := true;
    }

    /** One pass of the `while True` body of `receive_messages`. */
    method ReceiveOne(frame: Message, sc: Scheme) returns (open: bool)
      requires Valid()
      modifies this
      ensures Valid()
      ensures State(open) == Receive(sc, own, old(State(true)), frame)
    {
      ReceiveConsistent(sc, own, State(true), frame);
      open := true;
      match frame
      case SystemMessage(_, _, code, leftUser, leftRoom, publicField, privateField) =>
        effects := effects + [Emitted(frame)];
        if code == Conflict {
        } else if code == MemberLeft {
          if leftRoom.None? || leftUser.None? || leftRoom.value !in clients || leftUser.value !in clients[leftRoom.value] {
            open := false;
          } else {
            clients := clients[leftRoom.value := clients[leftRoom.value] - {leftUser.value}];
          }
        } else if !Installed(keys) {
          open := InstallKeys(publicField, privateField, sc);
        }
      case UserMessage(color, sender, text) =>
        if text != [] {
          var plain := ReadChat(sc, keys, text);
          if plain.None? {
            open := false;
          } else {
            effects := effects + [Emitted(UserMessage(color, sender, plain.value))];
          }
        }
      case MediaMessage(_, _, text, filename) =>
        effects := effects + [Emitted(frame)];
        var data := FromHex(text);
        var name := MediaName(filename);
        if data.None? || name.None? {
          open := false;
        } else {
          effects := effects + [Saved(name.value, data.value), Emitted(frame)];
        }
      case _ =>
    }

    /** The key-installing branch: public key first, then the private key. */
    method InstallKeys(publicField: Option<string>, privateField: Option<string>, sc: Scheme) returns (ok: bool)
      requires keys == NoKeys
      modifies this
      ensures (keys, ok) == Install(sc, own.priv, publicField, privateField)
      ensures clients == old(clients) && effects == old(effects)
    {
      ok := false;
      if publicField.Some? {
        var pub := KeyExchange.OpenPublic(sc, publicField.value, own.priv);
        if pub.Some? {
          keys := keys.(pub := pub);
          if privateField.Some? {
            var priv := KeyExchange.OpenPrivate(sc, privateField.value, own.priv);
            if priv.Some? {
              keys := keys.(priv := priv);
              ok := true;
            }
          }
        }
      }
    }

    /**
     * `receive_messages` for one member's connection: handle frames in
     * order until one ends the loop; `handled` counts the frames read.
     */
    method ReceiveMessages(frames: seq<Message>, sc: Scheme) returns (handled: nat)
      requires Valid()
      modifies this
      ensures Valid()
      ensures var r := Run(sc, own, old(State(true)), frames);
              clients == r.clients && keys == r.keys && effects == r.effects
      ensures handled <= |frames|
      ensures handled < |frames| ==> !Run(sc, own, old(State(true)), frames[..handled]).open
    {
      ghost var start := State(true);
      var open := true;
      handled := 0;
      while handled < |frames| && open
        invariant Valid()
        invariant handled <= |frames|
        invariant State(open) == Run(sc, own, start, frames[..handled])
        decreases |frames| - handled
      {
        RunSnoc(sc, own, start, frames, handled);
        open := ReceiveOne(frames[handled], sc);
        handled := handled + 1;
      }
      if handled < |frames| {
        RunClosed(sc, own, start, frames, handled);
      } else {
        assert frames[..handled] == frames;
      }
    }
  }
}
