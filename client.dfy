/**
 * The console client: one `ChatClient` per process, whose receive loop
 * updates its username and the process-wide room keys, and whose input loop
 * turns typed lines into frames. Printing is modelled only where it carries
 * protocol content: the decrypted chat line a member sees and the media file
 * it saves.
 */
module Client {
  import opened Wrappers
  import opened Octets
  import opened Utf8
  import opened Rsa
  import opened Protocol
  import opened Peer
  import KeyExchange
  import Server
  import opened Lists

  /** The keys of the `colors` table; any other colour raises KeyError. */
  const Colors: set<string> := {"green", "red", "blue", "reset"}

  /** What the client does that others can observe. */
  datatype Effect =
    | Sent(frame: Message)                   // `websocket.send`
    | Shown(username: string, text: string)  // a decrypted chat line printed
    | Saved(filename: string, data: Bytes)   // a media file written under `received_media`

  /** The receive loop's state: whether it goes on reading is `open`. */
  datatype Session = Session(username: string, keys: RoomKeys, effects: seq<Effect>, open: bool)

  /** The JOIN_ROOM frame, carrying the client's own public key in PEM form. */
  function JoinFrame(sc: Scheme, own: KeyPair, username: string, room: string): Message {
    JoinRoom(username, room, Some(sc.savePublic(own.pub)))
  }

  /**
   * One pass of the receive loop for one frame. `answer` is what `input()`
   * returns if a 409 asks for another username. Any exception ends the
   * loop (`open` false).
   */
  function Receive(sc: Scheme, own: KeyPair, room: string, s: Session, frame: Message, answer: string): (r: Session)
  {
    match frame
    case SystemMessage(color, _, code, _, _, publicField, privateField) =>
      if color !in Colors then s.(open := false)
      else if code == Conflict then
        s.(username := answer, effects := s.effects + [Sent(JoinFrame(sc, own, answer, room))])
      else if Installed(s.keys) then s
      else
        var (keys, ok) := Install(sc, own.priv, publicField, privateField);
        s.(keys := keys, open := ok)
    case UserMessage(color, username, text) =>
      if text == [] then s
      else (
        match ReadChat(sc, s.keys, text)
        case None => s.(open := false)
        case Some(plain) =>
          if color !in Colors then s.(open := false)
          else s.(effects := s.effects + [Shown(username, plain)]))
    case MediaMessage(_, _, text, filename) =>
      (match FromHex(text)
       case None => s.(open := false)
       case Some(data) =>
         match MediaName(filename)
         case None => s.(open := false)
         case Some(name) => s.(effects := s.effects + [Saved(name, data)]))
    case _ => s
  }

  /**
   * `receive_messages` over a finite stream of frames: one `Receive` per
   * frame until one ends the loop. `answers(i)` is the name typed if frame
   * `i` is a 409.
   */
  function Run(sc: Scheme, own: KeyPair, room: string, start: Session, frames: seq<Message>,
               answers: nat -> string): Session
    decreases |frames|
  {
    if frames == [] then start
    else
      var before := Run(sc, own, room, start, frames[..|frames| - 1], answers);
      if !before.open then before
      else Receive(sc, own, room, before, frames[|frames| - 1], answers(|frames| - 1))
  }

  lemma RunSnoc(sc: Scheme, own: KeyPair, room: string, start: Session, frames: seq<Message>, k: nat,
                answers: nat -> string)
    requires k < |frames|
    ensures var before := Run(sc, own, room, start, frames[..k], answers);
            Run(sc, own, room, start, frames[..k + 1], answers)
            == if !before.open then before else Receive(sc, own, room, before, frames[k], answers(k))
  {
    assert frames[..k + 1][..k] == frames[..k];
  }

  /** Once the loop has ended, later frames are never read. */
  lemma {:induction false} RunClosed(sc: Scheme, own: KeyPair, room: string, start: Session, frames: seq<Message>,
                                     k: nat, answers: nat -> string)
    requires k <= |frames| && !Run(sc, own, room, start, frames[..k], answers).open
    ensures Run(sc, own, room, start, frames, answers) == Run(sc, own, room, start, frames[..k], answers)
    decreases |frames|
  {
    if k < |frames| {
      var init := frames[..|frames| - 1];
      assert init[..k] == frames[..k];
      RunClosed(sc, own, room, start, init, k, answers);
    } else {
      assert frames[..k] == frames;
    }
  }

  // Properties of the receive loop

  /**
   * A 409 makes the client take the typed name as its username and send a
   * fresh JOIN_ROOM for the same room with its own public key; it keeps
   * reading and its keys do not change.
   */
  lemma ConflictRejoins(sc: Scheme, own: KeyPair, room: string, s: Session, color: string, text: string,
                        leftUser: Option<string>, leftRoom: Option<string>, publicField: Option<string>,
                        privateField: Option<string>, answer: string)
    requires color in Colors
    ensures var r := Receive(sc, own, room, s,
                             SystemMessage(color, text, Conflict, leftUser, leftRoom, publicField, privateField), answer);
            && r.username == answer && r.keys == s.keys && r.open == s.open
            && r.effects == s.effects + [Sent(JoinRoom(answer, room, Some(sc.savePublic(own.pub))))]
  {
  }

  /** A system message in a colour the table lacks ends the loop and changes nothing else. */
  lemma UnknownColorEnds(sc: Scheme, own: KeyPair, room: string, s: Session, color: string, text: string,
                         code: int, leftUser: Option<string>, leftRoom: Option<string>,
                         publicField: Option<string>, privateField: Option<string>, answer: string)
    requires color !in Colors
    ensures Receive(sc, own, room, s, SystemMessage(color, text, code, leftUser, leftRoom, publicField, privateField),
                    answer)
            == s.(open := false)
  {
  }

  /** Keys already installed are never replaced, whatever frame arrives. */
  lemma ReceiveKeepsKeys(sc: Scheme, own: KeyPair, room: string, s: Session, frame: Message, answer: string)
    requires Installed(s.keys)
    ensures Receive(sc, own, room, s, frame, answer).keys == s.keys
  {
  }

  /**
   * Room keys are installed at most once: a run that starts with keys ends
   * with the same keys, so a run that changes them started with none.
   */
  lemma {:induction false} RunKeepsKeys(sc: Scheme, own: KeyPair, room: string, start: Session,
                                        frames: seq<Message>, answers: nat -> string)
    ensures Installed(start.keys) ==> Run(sc, own, room, start, frames, answers).keys == start.keys
    ensures Run(sc, own, room, start, frames, answers).keys != start.keys ==> !Installed(start.keys)
    decreases |frames|
  {
    if frames != [] {
      var before := Run(sc, own, room, start, frames[..|frames| - 1], answers);
      RunKeepsKeys(sc, own, room, start, frames[..|frames| - 1], answers);
      if Installed(start.keys) && before.open {
        ReceiveKeepsKeys(sc, own, room, before, frames[|frames| - 1], answers(|frames| - 1));
      }
    }
  }

  /**
   * The server's welcome, received before any keys, installs exactly the
   * room's key pair and the loop goes on.
   */
  lemma WelcomeInstallsRoomKeys(sc: Scheme, own: KeyPair, room: string, s: Session, roomKeys: KeyPair,
                                answer: string)
    requires sc.Valid() && Matches(own.pub, own.priv) && ByteSize(own.pub.n) > PaddingOverhead
    requires s.keys == NoKeys && s.open
    ensures var publicField := KeyExchange.SealText(sc, sc.savePublic(roomKeys.pub), own.pub);
            var privateField := KeyExchange.SealText(sc, sc.savePrivate(roomKeys.priv), own.pub);
            && publicField.Success? && privateField.Success?
            && Receive(sc, own, room, s, Server.Welcome(publicField.value, privateField.value), answer)
               == s.(keys := RoomKeys(Some(roomKeys.pub), Some(roomKeys.priv)))
  {
    var publicField := KeyExchange.SealText(sc, sc.savePublic(roomKeys.pub), own.pub);
    var privateField := KeyExchange.SealText(sc, sc.savePrivate(roomKeys.priv), own.pub);
    assert publicField.Success? && privateField.Success?
           && Install(sc, own.priv, Some(publicField.value), Some(privateField.value))
              == (RoomKeys(Some(roomKeys.pub), Some(roomKeys.priv)), true) by {
      InstallWelcome(sc, roomKeys, own);
    }
    assert "green" in Colors;
  }

  /** A USER_MESSAGE with an empty payload is ignored. */
  lemma EmptyChatIgnored(sc: Scheme, own: KeyPair, room: string, s: Session, color: string, username: string,
                         answer: string)
    ensures Receive(sc, own, room, s, UserMessage(color, username, []), answer) == s
  {
  }

  /**
   * End to end for chat: an ASCII line typed by one member, relayed by the
   * server, is shown to another member holding the room's private key as
   * exactly that line, under the sender's name.
   */
  lemma ChatDelivered(sc: Scheme, own: KeyPair, room: string, s: Session, roomKeys: KeyPair, text: string,
                      sender: string, read: string -> Option<Bytes>, answer: string)
    requires sc.Valid() && Matches(roomKeys.pub, roomKeys.priv) && ByteSize(roomKeys.pub.n) > PaddingOverhead
    requires IsAscii(text) && text != [] && !StartsWith(text, MediaCommand)
    requires s.keys.priv == Some(roomKeys.priv)
    ensures var out := Build(sc, text, sender, room, Some(roomKeys.pub), read);
            && out.Send? && out.frame.ChatMessage?
            && Receive(sc, own, room, s, Server.ChatRelay(sender, out.frame.message), answer)
               == s.(effects := s.effects + [Shown(sender, text)])
  {
    ChatBuilt(sc, text, sender, room, roomKeys, read);
    var out := Build(sc, text, sender, room, Some(roomKeys.pub), read);
    assert out.frame.message != [] by {
      KeyExchange.RoundTrip(sc, text, roomKeys.pub, roomKeys.priv);
      var crypto := KeyExchange.Encrypt(sc, text, roomKeys.pub).value;
      assert |crypto| > 0 by {
        KeyExchange.ChunkCount(text, ByteSize(roomKeys.pub.n) - PaddingOverhead);
      }
      HexIsCanonical(crypto);
    }
  }

  /**
   * End to end for media: a readable file sent with `/media <path>` and
   * relayed by the server is saved by another member under the path's base
   * name with exactly the file's bytes.
   */
  lemma MediaDelivered(sc: Scheme, own: KeyPair, room: string, s: Session, path: string, gap: string,
                       sender: string, roomPub: Option<PublicKey>, read: string -> Option<Bytes>, answer: string)
    requires path != [] && gap != []
    requires forall i :: 0 <= i < |path| ==> !IsSpace(path[i])
    requires forall i :: 0 <= i < |gap| ==> IsSpace(gap[i])
    requires read(path).Some?
    ensures var out := Build(sc, MediaCommand + gap + path, sender, room, roomPub, read);
            && out.Send? && out.frame.MediaMessage? && out.frame.filename.FileNamed?
            && Receive(sc, own, room, s, Server.MediaRelay(sender, out.frame.message, out.frame.filename), answer)
               == s.(effects := s.effects + [Saved(Basename(path), read(path).value)])
  {
    MediaBuilt(sc, path, gap, sender, room, roomPub, read);
    var data := read(path).value;
    var frame := MediaMessage(sender, None, Hex(data), FileNamed(Basename(path)));
    assert FromHex(frame.message) == Some(data);
    assert MediaName(frame.filename) == Some(Basename(path));
    assert Receive(sc, own, room, s, frame, answer) == s.(effects := s.effects + [Saved(Basename(path), data)]);
  }

  /**
   * Incoming media is saved as the bytes its hex payload spells, under
   * "unknown" when the frame has no filename; a payload that is not hex, or
   * a `null` filename, ends the loop with nothing written.
   */
  lemma MediaSaved(sc: Scheme, own: KeyPair, room: string, s: Session, sender: string, mediaRoom: Option<string>,
                   text: string, filename: FileName, answer: string)
    requires s.open
    ensures var r := Receive(sc, own, room, s, MediaMessage(sender, mediaRoom, text, filename), answer);
            && (r.open <==> FromHex(text).Some? && !filename.NullFileName?)
            && (!r.open ==> r.effects == s.effects)
            && (r.open && filename.FileNamed? ==>
                  r.effects == s.effects + [Saved(filename.name, FromHex(text).value)])
            && (r.open && filename.NoFileName? ==>
                  r.effects == s.effects + [Saved("unknown", FromHex(text).value)])
            && r.username == s.username && r.keys == s.keys
  {
  }

  // The input loop

  /** What each typed line leads to, in typing order. */
  function Builds(sc: Scheme, lines: seq<string>, username: string, room: string, roomPub: Option<PublicKey>,
                  read: string -> Option<Bytes>): (outs: seq<Sending>)
    ensures |outs| == |lines|
  {
    if lines == [] then []
    else Builds(sc, lines[..|lines| - 1], username, room, roomPub, read)
           + [Build(sc, lines[|lines| - 1], username, room, roomPub, read)]
  }

  lemma BuildsAt(sc: Scheme, lines: seq<string>, username: string, room: string,
                 roomPub: Option<PublicKey>, read: string -> Option<Bytes>, i: nat)
    requires i < |lines|
    ensures Builds(sc, lines, username, room, roomPub, read)[i] == Build(sc, lines[i], username, room, roomPub, read)
  {
    BuildsPrefix(sc, lines, username, room, roomPub, read, i + 1);
    assert lines[..i + 1][..i] == lines[..i];
  }

  /** The outcomes of a prefix of the lines are a prefix of the outcomes. */
  lemma {:induction false} BuildsPrefix(sc: Scheme, lines: seq<string>, username: string, room: string,
                                        roomPub: Option<PublicKey>, read: string -> Option<Bytes>, k: nat)
    requires k <= |lines|
    ensures Builds(sc, lines, username, room, roomPub, read)[..k] == Builds(sc, lines[..k], username, room, roomPub, read)
    decreases |lines|
  {
    if k < |lines| {
      var init := lines[..|lines| - 1];
      BuildsPrefix(sc, init, username, room, roomPub, read, k);
      assert init[..k] == lines[..k];
    } else {
      assert lines[..k] == lines;
    }
  }

  lemma BuildsSnoc(sc: Scheme, lines: seq<string>, k: nat, username: string, room: string,
                   roomPub: Option<PublicKey>, read: string -> Option<Bytes>)
    requires k < |lines|
    ensures Builds(sc, lines[..k + 1], username, room, roomPub, read)
            == Builds(sc, lines[..k], username, room, roomPub, read) + [Build(sc, lines[k], username, room, roomPub, read)]
  {
    assert lines[..k + 1][..k] == lines[..k];
  }

  /** The send a built line makes, if any. */
  function SentBy(out: Sending): seq<Effect> {
    if out.Send? then [Sent(out.frame)] else []
  }

  /** The sends of a run of built lines: skipped and crashing lines send nothing. */
  function SentAll(outs: seq<Sending>): seq<Effect> {
    if outs == [] then [] else SentAll(outs[..|outs| - 1]) + SentBy(outs[|outs| - 1])
  }

  lemma SentAllSnoc(outs: seq<Sending>, out: Sending)
    ensures SentAll(outs + [out]) == SentAll(outs) + SentBy(out)
  {
    assert (outs + [out])[..|outs|] == outs;
  }

  /** When every line is sent, each is sent once, in order, as the frame built from it. */
  lemma {:induction false} SentAllSends(outs: seq<Sending>)
    requires forall i :: 0 <= i < |outs| ==> outs[i].Send?
    ensures |SentAll(outs)| == |outs|
    ensures forall i :: 0 <= i < |outs| ==> SentAll(outs)[i] == Sent(outs[i].frame)
  {
    if outs != [] {
      var init := outs[..|outs| - 1];
      assert forall i :: 0 <= i < |init| ==> init[i] == outs[i];
      SentAllSends(init);
    }
  }

  /** Skipped lines leave no trace: only the sends remain. */
  lemma {:induction false} SentAllSkips(outs: seq<Sending>)
    requires forall i :: 0 <= i < |outs| ==> !outs[i].Send?
    ensures SentAll(outs) == []
  {
    if outs != [] {
      SentAllSkips(outs[..|outs| - 1]);
    }
  }

  /**
   * `user_input_loop` over lines none of which is skipped: every line is
   * sent, in typing order, as the frame built from it.
   */
  lemma TypedAllSent(sc: Scheme, lines: seq<string>, username: string, room: string,
                     roomPub: Option<PublicKey>, read: string -> Option<Bytes>)
    requires forall i :: 0 <= i < |lines| ==> Build(sc, lines[i], username, room, roomPub, read).Send?
    ensures var sent := SentAll(Builds(sc, lines, username, room, roomPub, read));
            && |sent| == |lines|
            && forall i :: 0 <= i < |lines| ==> sent[i] == Sent(Build(sc, lines[i], username, room, roomPub, read).frame)
  {
    var outs := Builds(sc, lines, username, room, roomPub, read);
    forall i | 0 <= i < |lines|
      ensures outs[i] == Build(sc, lines[i], username, room, roomPub, read)
    {
      BuildsAt(sc, lines, username, room, roomPub, read, i);
    }
    SentAllSends(outs);
  }

  /** The console client; the room keys are the module globals of its process. */
  class ChatClient {
    var username: string
    const room: string
    const own: KeyPair
    var keys: RoomKeys
    var effects: seq<Effect>

    function State(open: bool): Session
      reads this
    {
      Session(username, keys, effects, open)
    }

    constructor (username: string, room: string, own: KeyPair)
      ensures this.username == username && this.room == room && this.own == own
      ensures keys == NoKeys && effects == []
    {
      this.username := username;
      this.room := room;
      this.own := own;
      keys := NoKeys;
      effects := [];
    }

    /** `connect_to_server`: the opening JOIN_ROOM. */
    method Connect(sc: Scheme)
      modifies this
      ensures username == old(username) && keys == old(keys)
      ensures effects == old(effects) + [Sent(JoinFrame(sc, own, username, room))]
    {
      effects := effects + [Sent(JoinRoom(username, room, Some(sc.savePublic(own.pub))))];
    }

    /** One pass of the `while True` body of `receive_messages`. */
    method ReceiveOne(frame: Message, answer: string, sc: Scheme) returns (open: bool)
      modifies this
      ensures State(open) == Receive(sc, own, room, old(State(true)), frame, answer)
    {
      open := true;
      match frame
      case SystemMessage(color, _, code, _, _, publicField, privateField) =>
        if color !in Colors {
          open := false;
        } else if code == Conflict {
          username := answer;
          effects := effects + [Sent(JoinRoom(username, room, Some(sc.savePublic(own.pub))))];
        } else if !Installed(keys) {
          open := InstallKeys(publicField, privateField, sc);
        }
      case UserMessage(color, sender, text) =>
        if text != [] {
          var plain := ReadChat(sc, keys, text);
          if plain.None? || color !in Colors {
            open := false;
          } else {
            effects := effects + [Shown(sender, plain.value)];
          }
        }
      case MediaMessage(_, _, text, filename) =>
        var data := FromHex(text);
        var name := MediaName(filename);
        if data.None? || name.None? {
          open := false;
        } else {
          effects := effects + [Saved(name.value, data.value)];
        }
      case _ =>
    }

    /** The key-installing branch: public key first, then the private key. */
    method InstallKeys(publicField: Option<string>, privateField: Option<string>, sc: Scheme) returns (ok: bool)
      requires keys == NoKeys
      modifies this
      ensures (keys, ok) == Install(sc, own.priv, publicField, privateField)
      ensures username == old(username) && effects == old(effects)
    {
      ok := false;
      if publicField.Some? {
        var pub := KeyExchange.OpenPublic(sc, publicField.value, own.priv);
        if pub.Some? {
          keys := keys.(pub := pub);
          if privateField.Some? {
            var priv := KeyExchange.OpenPrivate(sc, privateField.value, own.priv);
            if priv.Some? {
              keys := keys.(priv := priv);
              ok := true;
            }
          }
        }
      }
    }

    /**
     * `receive_messages`: handle frames in order until one ends the loop;
     * `handled` counts the frames read.
     */
    method ReceiveMessages(frames: seq<Message>, answers: nat -> string, sc: Scheme) returns (handled: nat)
      modifies this
      ensures var r := Run(sc, own, room, old(State(true)), frames, answers);
              username == r.username && keys == r.keys && effects == r.effects
      ensures handled <= |frames|
      ensures handled < |frames| ==> !Run(sc, own, room, old(State(true)), frames[..handled], answers).open
    {
      ghost var start := State(true);
      var open := true;
      handled := 0;
      while handled < |frames| && open
        invariant handled <= |frames|
        invariant State(open) == Run(sc, own, room, start, frames[..handled], answers)
        decreases |frames| - handled
      {
        RunSnoc(sc, own, room, start, frames, handled, answers);
        open := ReceiveOne(frames[handled], answers(handled), sc);
        handled := handled + 1;
      }
      if handled < |frames| {
        RunClosed(sc, own, room, start, frames, handled, answers);
      } else {
        assert frames[..handled] == frames;
      }
    }

    /**
     * `user_input_loop` over the lines typed: each line is built and sent;
     * an unreadable file skips the line; an exception while building ends
     * the loop. `consumed` counts the lines read.
     */
    method InputLoop(lines: seq<string>, read: string -> Option<Bytes>, sc: Scheme) returns (consumed: nat)
      modifies this
      ensures username == old(username) && keys == old(keys)
      ensures consumed <= |lines|
      ensures effects == old(effects) + SentAll(Builds(sc, lines[..consumed], username, room, keys.pub, read))
      ensures forall i :: 0 <= i < consumed ==> !Build(sc, lines[i], username, room, keys.pub, read).Crash?
      ensures consumed < |lines| ==> Build(sc, lines[consumed], username, room, keys.pub, read).Crash?
    {
      var name, pub := username, keys.pub;
      consumed := 0;
      while consumed < |lines|
        invariant consumed <= |lines|
        invariant username == name && keys == old(keys)
        invariant effects == old(effects) + SentAll(Builds(sc, lines[..consumed], name, room, pub, read))
        invariant forall i :: 0 <= i < consumed ==> !Build(sc, lines[i], name, room, pub, read).Crash?
        decreases |lines| - consumed
      {
        var out := Build(sc, lines[consumed], name, room, pub, read);
        if out.Crash? {
          return;
        }
        ghost var before := Builds(sc, lines[..consumed], name, room, pub, read);
        BuildsSnoc(sc, lines, consumed, name, room, pub, read);
        SentAllSnoc(before, out);
        if out.Send? {
          effects := effects + [Sent(out.frame)];
        }
        AppendAssoc(old(effects), SentAll(before), SentBy(out));
        assert forall i :: 0 <= i < consumed + 1 ==> !Build(sc, lines[i], name, room, pub, read).Crash? by {
          assert !out.Crash?;
        }
        consumed := consumed + 1;
      }
    }
  }
}
