/**
 * What the console client and the browser bridge share on the member side:
 * turning a line the user typed into the frame sent to the server, installing
 * the room keys from the welcome, and reading a relayed chat message. Both
 * programs copy the same code; it is modelled once.
 */
module Peer {
  import opened Wrappers
  import opened Octets
  import opened Utf8
  import opened Rsa
  import opened Protocol
  import KeyExchange

  // Parsing the typed line

  /** `str.isspace()`: the characters `str.split()` separates words on. */
  predicate IsSpace(c: char) {
    || c == ' ' || c == '\t' || c == '\n' || c == '\r' || c == '\U{B}' || c == '\U{C}'
    || ('\U{1C}' <= c <= '\U{1F}') || c == '\U{85}' || c == '\U{A0}' || c == '\U{1680}'
    || ('\U{2000}' <= c <= '\U{200A}') || c == '\U{2028}' || c == '\U{2029}' || c == '\U{202F}'
    || c == '\U{205F}' || c == '\U{3000}'
  }

  predicate StartsWith(s: string, prefix: string) {
    |prefix| <= |s| && s[..|prefix|] == prefix
  }

  /** The command prefix that turns a line into a file upload. */
  const MediaCommand: string := "/media"

  /** The longest prefix of `s` without whitespace. */
  function Word(s: string): (w: string)
    ensures |w| <= |s| && w == s[..|w|]
    ensures forall i :: 0 <= i < |w| ==> !IsSpace(w[i])
    ensures |w| < |s| ==> IsSpace(s[|w|])
  {
    if s == [] || IsSpace(s[0]) then [] else [s[0]] + Word(s[1..])
  }

  /** `str.split()` with no separator: the maximal runs of non-whitespace, in order. */
  function Split(s: string): (words: seq<string>)
    decreases |s|
  {
    if s == [] then []
    else if IsSpace(s[0]) then Split(s[1..])
    else
      var w := Word(s);
      [w] + Split(s[|w|..])
  }

  /** Every word is non-empty and holds no whitespace. */
  lemma {:induction false} SplitWords(s: string)
    ensures forall k :: 0 <= k < |Split(s)| ==> Split(s)[k] != []
    ensures forall k, i :: 0 <= k < |Split(s)| && 0 <= i < |Split(s)[k]| ==> !IsSpace(Split(s)[k][i])
    decreases |s|
  {
    if s == [] {
    } else if IsSpace(s[0]) {
      SplitWords(s[1..]);
    } else {
      SplitWords(s[|Word(s)|..]);
    }
  }

  /** A word followed by whitespace and one more word splits into those two words. */
  lemma SplitTwo(a: string, gap: string, b: string)
    requires a != [] && b != [] && gap != []
    requires forall i :: 0 <= i < |a| ==> !IsSpace(a[i])
    requires forall i :: 0 <= i < |b| ==> !IsSpace(b[i])
    requires forall i :: 0 <= i < |gap| ==> IsSpace(gap[i])
    ensures Split(a + gap + b) == [a, b]
  {
    WordOf(a, gap + b);
    assert a + gap + b == a + (gap + b);
    assert (a + (gap + b))[|a|..] == gap + b;
    SkipSpace(gap, b);
    WordOf(b, []);
    assert b + [] == b;
    assert b[|b|..] == [];
  }

  /** `Word` stops exactly where the whitespace starts. */
  lemma {:induction false} WordOf(a: string, rest: string)
    requires forall i :: 0 <= i < |a| ==> !IsSpace(a[i])
    requires rest == [] || IsSpace(rest[0])
    ensures Word(a + rest) == a
  {
    if a != [] {
      assert (a + rest)[1..] == a[1..] + rest;
      WordOf(a[1..], rest);
    }
  }

  /** Leading whitespace is skipped. */
  lemma {:induction false} SkipSpace(gap: string, b: string)
    requires forall i :: 0 <= i < |gap| ==> IsSpace(gap[i])
    ensures Split(gap + b) == Split(b)
  {
    if gap != [] {
      assert (gap + b)[0] == gap[0];
      assert (gap + b)[1..] == gap[1..] + b;
      SkipSpace(gap[1..], b);
    } else {
      assert gap + b == b;
    }
  }

  /** `os.path.basename` on a POSIX path: what follows the last '/'. */
  function Basename(path: string): (name: string)
    ensures |name| <= |path| && path[|path| - |name|..] == name
    ensures forall i :: 0 <= i < |name| ==> name[i] != '/'
    ensures |name| == |path| || path[|path| - |name| - 1] == '/'
  {
    if path == [] || path[|path| - 1] == '/' then []
    else Basename(path[..|path| - 1]) + [path[|path| - 1]]
  }

  // Building the outgoing frame

  /** Why building a frame raised. */
  datatype Fault =
    | NoRoomKey              // `encrypt(message, None)`: the room key was never installed
    | CipherFailed(e: Error) // `encrypt` raised

  /** What one typed line leads to. */
  datatype Sending =
    | Skip                   // the file could not be read: nothing is sent
    | Send(frame: Message)
    | Crash(fault: Fault)

  /**
   * One line of input: `/media <path>` uploads the file as raw hex under
   * its base name; anything else is chat, encrypted with the room's public
   * key and hex-encoded. `read` is the file system.
   */
  function Build(sc: Scheme, text: string, username: string, room: string, roomPub: Option<PublicKey>,
                 read: string -> Option<Bytes>): (r: Sending)
  {
    if StartsWith(text, MediaCommand) then
      var words := Split(text);
      if |words| < 2 then Skip
      else match read(words[1])
        case None => Skip
        case Some(content) => Send(MediaMessage(username, Some(room), Hex(content), FileNamed(Basename(words[1]))))
    else match roomPub
      case None => Crash(NoRoomKey)
      case Some(pub) =>
        match KeyExchange.Encrypt(sc, text, pub)
        case Failure(e) => Crash(CipherFailed(e))
        case Success(crypto) => Send(ChatMessage(username, room, Hex(crypto)))
  }

  /**
   * Nothing is sent exactly for a `/media` line with no path or with a
   * path that cannot be read; a chat line fails only for want of a key or
   * an encryption error.
   */
  lemma BuildSkips(sc: Scheme, text: string, username: string, room: string, roomPub: Option<PublicKey>,
                   read: string -> Option<Bytes>)
    ensures Build(sc, text, username, room, roomPub, read).Skip?
            <==> StartsWith(text, MediaCommand) && (|Split(text)| < 2 || read(Split(text)[1]).None?)
    ensures Build(sc, text, username, room, roomPub, read).Crash? ==> !StartsWith(text, MediaCommand)
    ensures !StartsWith(text, MediaCommand) && roomPub.None? ==>
              Build(sc, text, username, room, roomPub, read) == Crash(NoRoomKey)
  {
  }

  /**
   * A readable file goes out as a MEDIA_MESSAGE for the member's room whose
   * payload is the file's bytes, hex-encoded and not encrypted, which
   * `bytes.fromhex` turns back into exactly those bytes; the file name is
   * the path's last component.
   */
  lemma MediaBuilt(sc: Scheme, path: string, gap: string, username: string, room: string,
                   roomPub: Option<PublicKey>, read: string -> Option<Bytes>)
    requires path != [] && gap != []
    requires forall i :: 0 <= i < |path| ==> !IsSpace(path[i])
    requires forall i :: 0 <= i < |gap| ==> IsSpace(gap[i])
    requires read(path).Some?
    ensures var r := Build(sc, MediaCommand + gap + path, username, room, roomPub, read);
            && r == Send(MediaMessage(username, Some(room), Hex(read(path).value), FileNamed(Basename(path))))
            && FromHex(r.frame.message) == Some(read(path).value)
  {
    var text := MediaCommand + gap + path;
    assert StartsWith(text, MediaCommand) && Split(text) == [MediaCommand, path] by {
      MediaLine(path, gap);
    }
    FromHexHex(read(path).value);
  }

  /** `/media`, whitespace and a path: the path is the second word. */
  lemma MediaLine(path: string, gap: string)
    requires path != [] && gap != []
    requires forall i :: 0 <= i < |path| ==> !IsSpace(path[i])
    requires forall i :: 0 <= i < |gap| ==> IsSpace(gap[i])
    ensures StartsWith(MediaCommand + gap + path, MediaCommand)
    ensures Split(MediaCommand + gap + path) == [MediaCommand, path]
  {
    var text := MediaCommand + gap + path;
    assert text[..|MediaCommand|] == MediaCommand;
    assert forall i :: 0 <= i < |MediaCommand| ==> !IsSpace(MediaCommand[i]);
    SplitTwo(MediaCommand, gap, path);
  }

  /**
   * A chat line in ASCII, once the room's public key is installed, goes out
   * as a CHAT_MESSAGE for the member's room whose payload opens, under the
   * room's private key, to the line itself.
   */
  lemma ChatBuilt(sc: Scheme, text: string, username: string, room: string, keys: KeyPair,
                  read: string -> Option<Bytes>)
    requires sc.Valid() && Matches(keys.pub, keys.priv) && ByteSize(keys.pub.n) > PaddingOverhead
    requires IsAscii(text) && !StartsWith(text, MediaCommand)
    ensures var r := Build(sc, text, username, room, Some(keys.pub), read);
            && r.Send? && r.frame.ChatMessage? && r.frame.username == username && r.frame.room == room
            && KeyExchange.OpenText(sc, r.frame.message, keys.priv) == Some(text)
  {
    KeyExchange.SealOpen(sc, text, keys.pub, keys.priv);
  }

  // Room keys and incoming chat

  /** The globals `server_public_key` and `server_private_key`. */
  datatype RoomKeys = RoomKeys(pub: Option<PublicKey>, priv: Option<PrivateKey>)

  const NoKeys: RoomKeys := RoomKeys(None, None)

  /** `not server_public_key and not server_private_key` is false. */
  predicate Installed(keys: RoomKeys) {
    keys.pub.Some? || keys.priv.Some?
  }

  /**
   * Open both sealed room keys of a welcome with the member's own private
   * key. The public key is stored before the private field is looked at, so
   * a failure there leaves it installed; the flag is `false` when anything
   * raised.
   */
  function Install(sc: Scheme, own: PrivateKey, publicField: Option<string>, privateField: Option<string>)
    : (r: (RoomKeys, bool))
    ensures r.1 ==> r.0.pub.Some? && r.0.priv.Some?
    ensures r.0.priv.Some? ==> r.1
    ensures publicField.None? ==> r == (NoKeys, false)
    ensures publicField.Some? ==> r.0.pub == KeyExchange.OpenPublic(sc, publicField.value, own)
    ensures r.0.pub.Some? && privateField.Some? ==> r.0.priv == KeyExchange.OpenPrivate(sc, privateField.value, own)
    ensures r.0.pub.None? || privateField.None? ==> r.0.priv.None?
  {
    match publicField
    case None => (NoKeys, false)
    case Some(f) =>
      match KeyExchange.OpenPublic(sc, f, own)
      case None => (NoKeys, false)
      case Some(pub) =>
        match privateField
        case None => (RoomKeys(Some(pub), None), false)
        case Some(g) =>
          match KeyExchange.OpenPrivate(sc, g, own)
          case None => (RoomKeys(Some(pub), None), false)
          case Some(priv) => (RoomKeys(Some(pub), Some(priv)), true)
  }

  /**
   * The welcome the server builds for a joiner (both PEM texts of the room,
   * each sealed with the joiner's public key) installs exactly the room's
   * key pair.
   */
  lemma InstallWelcome(sc: Scheme, room: KeyPair, own: KeyPair)
    requires sc.Valid() && Matches(own.pub, own.priv) && ByteSize(own.pub.n) > PaddingOverhead
    ensures var publicField := KeyExchange.SealText(sc, sc.savePublic(room.pub), own.pub);
            var privateField := KeyExchange.SealText(sc, sc.savePrivate(room.priv), own.pub);
            && publicField.Success? && privateField.Success?
            && Install(sc, own.priv, Some(publicField.value), Some(privateField.value))
               == (RoomKeys(Some(room.pub), Some(room.priv)), true)
  {
    KeyExchange.KeyTransport(sc, room, own.pub, own.priv);
  }

  /** Read a chat payload: hex to bytes, then decrypt with the room's private key; `None` when it raises. */
  function ReadChat(sc: Scheme, keys: RoomKeys, field: string): (r: Option<string>)
    ensures keys.priv.None? ==> r.None?
  {
    match keys.priv
    case None => None
    case Some(priv) => KeyExchange.OpenText(sc, field, priv)
  }

  /**
   * The name an incoming file is saved under: `message.get("filename",
   * "unknown")`. A `null` name reaches `os.path.join` as `None`, which
   * raises TypeError before anything is written; that is `None` here.
   */
  function MediaName(filename: FileName): (r: Option<string>)
    ensures r.None? <==> filename.NullFileName?
    ensures filename.NoFileName? ==> r == Some("unknown")
    ensures filename.FileNamed? ==> r == Some(filename.name)
  {
    match filename
    case NoFileName => Some("unknown")
    case NullFileName => None
    case FileNamed(name) => Some(name)
  }
}
