# Private-Chat in Dafny

A model of Private-Chat, a room-based chat over websockets with hybrid RSA
key distribution, and proofs about it. Three programs are modelled.

- **The relay server** (`server.py`). It keeps a directory of rooms. Each room
  holds two parallel lists, the member sockets and their usernames, plus a
  key pair drawn when the room is created. A JOIN_ROOM frame adds the sender
  to the room. The joiner gets both room keys back as PEM text, encrypted
  under the joiner's own public key and hex-encoded. Chat and media frames
  are relayed to every other member, with the payload untouched.
- **The console client** (`client.py`). Its receive loop installs the room
  keys once and handles a username conflict (code 409) by asking for a new
  name and joining again. It decrypts chat lines and saves media files. Its
  input loop turns typed lines into frames: chat is encrypted and
  hex-encoded, and `/media <path>` sends the file's bytes as plain hex.
- **The browser bridge** (`WEB/flask_app.py`). It opens one server connection
  per browser user and keeps them in a registry `clients[room][username]`.
  Its receive loop forwards frames to the browser instead of printing them.

The chunked RSA envelope is copied into each program: all three define
`encrypt`, and the console client and the bridge also define `decrypt`. It
is modelled once, in `KeyExchange`. The message-building and key-installing
code shared by both peers is modelled once too, in `Peer`.

Module layout:

- `Wrappers`: `Option` and `Result`.
- `Lists`: the Python list operations the server relies on.
- `Octets`: `bytes.hex()` and `bytes.fromhex`, base16 as in section 8 of
  RFC 4648.
- `Utf8`: `str.encode()` and `bytes.decode()`, strict UTF-8 as in RFC 3629.
- `Rsa`: the RSA library as an opaque `Scheme`. Its `Valid()` predicate
  states what the protocol relies on. A block of at most `byte_size(n) - 11`
  bytes encrypts to exactly `byte_size(n)` bytes, and the matching private
  key decrypts it back. PEM text is ASCII and loads back its key.
- `Pkcs1`: a concrete `Scheme` satisfying `Valid()`, using EME-PKCS1-v1_5
  padding from section 7.2.1 of RFC 8017. It shows the assumptions can all
  hold at once.
- `KeyExchange`: `encrypt`/`decrypt` and the sealing of room keys.
- `Protocol`: the frames as a closed datatype, and a `Transport` class that
  logs each send and whether it raised. A set of failing sockets is the
  oracle for which sends raise.
- `Room`: the `ChatRoom` class.
- `Server`: the `ChatServer` class. Its receive loop is proved against spec
  functions that map the old directory to an `Outcome`.
- `Peer`: what the console client and the bridge share.
- `Client`: the console client.
- `Web`: the browser bridge.

Each loop in the source is a `method` with a loop in the model, proved
against a spec function. The three receive loops (server, console client,
bridge) are proved equal to a left fold (`Run`) of a per-frame function,
and the lemmas about that function state what a frame does to the state.
The other loops are proved against functions of their own: the broadcast
against `Protocol.Fanout`, the server's cleanup against `Server.Sweep`,
the empty-room sweep against `Server.Vacant`, and the console input loop
against `Client.Builds`. The source's list and dict comprehensions are
functions.

Source behaviour that looks unintended is kept as written and stated as a
lemma:

- LEAVE_ROOM calls `remove_client_from_rooms` without `await`, so the member
  is never removed (`Server.LeaveIsNoOp`).
- JOIN_ROOM creates the room before it admits the joiner. A join that fails
  after that point (a missing or unloadable public key, a failed seal, a
  failed welcome send) still leaves the room behind, and it stays: empty
  rooms are swept only at startup (`Server.JoinCreatesRoom`,
  `Server.JoinWithoutKey`).
- One socket can join a room twice under two names, and a departure removes
  only the first binding (`Room.DoubleJoinSurvivesDeparture`).
- A MEDIA_MESSAGE whose `filename` is `null` is relayed by the server, and
  ends the receive loop of a console client or bridge that gets it: path
  joining raises on `None` (`Client.MediaSaved`, `Web.MediaForwarded`).
- A member with an empty username leaves the name behind when it departs
  (`Room.DepartEmptyName`).
- `encrypt` slices characters before encoding, so a full slice containing a
  non-ASCII character overflows a block (`KeyExchange.NonAsciiOverflows`). The round trip is proved for
  ASCII text.
- The bridge raises KeyError on a goodbye (code 400) for a user it does not
  hold, which ends that receive loop (`Web.GoodbyeRemoves`).
- `remove_empty_rooms` runs once, when the server starts, before any client
  can join. The model gives it as `Server.ChatServer.RemoveEmptyRooms`; no
  handler calls it.

## Model

| member | source | states |
|---|---|---|
| Lists.IndexOf | server.py:47-50 | the position `zip(users, clients)` stops at holds the socket, and no earlier position does |
| Lists.RemoveFirstDistinct | server.py:66-68 | `list.remove` on a list without repeats leaves a list without repeats, one shorter and without the element |
| Lists.RemoveFirstMembers | server.py:66-68 | after `remove`, exactly the other elements are still present |
| Lists.RemoveFirst | server.py:66 | definition of `list.remove`; see Lists.RemoveFirstMembers, Lists.RemoveFirstDistinct, Lists.RemoveFirstMultiset |
| Lists.RemoveFirstMultiset | server.py:66 | `remove` takes away exactly one occurrence |
| Lists.Without | server.py:206-211 | deleting a set of keys from the room list leaves exactly the other names |
| Lists.RemoveFirstWithout | server.py:210-211 | deleting one more room is leaving one more name out, order kept |
| Rsa.ByteSizeBounds | server.py:9 | `byte_size(n)` is the least number of bytes whose range holds `n` |
| Rsa.Encrypt | server.py:15 | `rsa.encrypt` raises OverflowError exactly when the message exceeds `byte_size(n) - 11` bytes; under a valid scheme a message that fits gives exactly `byte_size(n)` bytes |
| Rsa.BlockRoundTrip | client.py:38 | a block that fits encrypts to one key-sized block that the matching private key decrypts back |
| Octets.Hex | server.py:132-133 | definition of `bytes.hex()`; see Octets.HexIsCanonical, Octets.FromHexHex |
| Octets.FromHex | client.py:115 | definition of `bytes.fromhex`; see Octets.FromHexHex, Octets.HexFromHex, Octets.FromHexSkipsSpace |
| Octets.LowerDigit | server.py:132-133 | `hex()` writes lowercase digits that read back as their value |
| Octets.HexIsCanonical | server.py:132-133 | `bytes.hex()` gives two lowercase digits per byte |
| Octets.FromHexHex | client.py:104-115 | `bytes.fromhex(b.hex()) == b` for every byte string |
| Octets.HexFromHex | client.py:115 | every canonical hex string is the `hex()` of what `fromhex` reads from it |
| Octets.FromHexSkipsSpace | client.py:132 | `fromhex` ignores a space between whole digit pairs |
| Utf8.Encode | client.py:23 | definition of `str.encode()`; see Utf8.EncodeLength, Utf8.EncodeAppend, Utf8.DecodeEncode |
| Utf8.Decode | client.py:42 | definition of `bytes.decode()`; see Utf8.DecodeEncode |
| Utf8.EncodeChar | client.py:23 | one character encodes to 1 to 4 bytes, and to one byte exactly when it is ASCII |
| Utf8.DecodeFirstEncodeChar | client.py:42 | decoding reads back exactly the encoded character, whatever follows it |
| Utf8.DecodeEncode | client.py:15-42 | `s.encode().decode() == s` for every string |
| Utf8.EncodeAppend | client.py:23-25 | encoding slice by slice and joining equals encoding the whole text |
| Utf8.EncodeAscii | client.py:23 | ASCII text encodes to one byte per character |
| Utf8.EncodeWide | client.py:23 | text with a non-ASCII character encodes to more bytes than characters |
| Utf8.EncodeLength | client.py:23 | no encoding is shorter than its text |
| Pkcs1.PaddingString | client.py:23 | the padding string has the requested length and no zero byte |
| Pkcs1.FirstZero | client.py:38 | the separator search finds the first zero byte at or after the start, or reports that none exists |
| Pkcs1.UnpadPad | client.py:23-38 | EME-PKCS1-v1_5 decoding inverts encoding for every message that fits |
| Pkcs1.PaddingSchemeValid | client.py:15-42 | a concrete RSA scheme meets every assumption the envelope relies on |
| KeyExchange.Chunks | client.py:17-21 | definition of the slicing comprehension; see KeyExchange.ChunksPartition, KeyExchange.ChunkAt |
| KeyExchange.Encrypt | client.py:15-27 | definition of `encrypt`; see KeyExchange.EncryptSucceeds, KeyExchange.RoundTrip |
| KeyExchange.Decrypt | client.py:30-42 | definition of `decrypt`; see KeyExchange.RoundTrip |
| KeyExchange.ChunksPartition | client.py:17-21 | the slices are non-empty, at most `byte_size(n) - 11` long, all full but the last, and join back to the message in order |
| KeyExchange.ChunkAt | client.py:18-21 | slice `i` is exactly `message[i*size:(i+1)*size]`, cut at the end |
| KeyExchange.ChunkCount | client.py:18-21 | there are `ceil(len/size)` slices |
| KeyExchange.EncryptChunksSucceeds | client.py:22-25 | encryption succeeds exactly when every encoded slice fits one block |
| KeyExchange.ChunksRoundTrip | client.py:30-42 | the ciphertext is one key-sized block per slice, and key-sized strides decrypt to the encoded text |
| KeyExchange.RoundTrip | client.py:15-42 | `decrypt(encrypt(m, pub), priv) == m` for ASCII `m` of any length, and the ciphertext length is `byte_size(n)` per slice |
| KeyExchange.EmptyMessage | server.py:9-19 | an empty message gives an empty ciphertext, which decrypts to the empty text |
| KeyExchange.NonAsciiOverflows | client.py:17-25 | a full slice of non-ASCII text overflows the block, and `encrypt` raises |
| KeyExchange.EncryptSucceeds | client.py:15-27 | encryption succeeds exactly when every encoded slice fits, so ASCII text always does |
| KeyExchange.SealOpen | WEB/flask_app.py:21-66 | ASCII text sealed and hex-encoded opens to itself under the matching private key |
| KeyExchange.KeyTransport | server.py:115-134 | both room keys sealed for a joiner open to exactly the room's key pair under the joiner's private key |
| Protocol.Transport.constructor | server.py:85-89 | no send has happened yet |
| Protocol.Transport.Send | server.py:76 | a send is logged, and it raises exactly on a failing socket |
| Protocol.Fanout | server.py:70-78 | definition of the sends a broadcast attempts; see Protocol.FanoutAddresses, Protocol.FanoutDelivered |
| Protocol.Others | server.py:73-74 | the broadcast addresses members only, never the sender, and every other member |
| Protocol.FanoutSnoc | server.py:73-78 | one more member adds that member's send, unless it is the sender |
| Protocol.FanoutAddresses | server.py:73-78 | attempt `i` goes to the `i`-th other member in list order, delivered iff its socket works; a failure stops nothing |
| Protocol.OthersCount | server.py:73-74 | a room of N distinct members broadcasting from one of them addresses N - 1 sockets |
| Protocol.FanoutDelivered | server.py:73-78 | a socket receives the broadcast iff it is a working member other than the sender |
| Room.Admit | server.py:29-33 | definition of the two appends of `add_client`; see Room.AdmitConsistent |
| Room.NameOf | server.py:47-50 | definition of the name the `zip` loop finds; see Lists.IndexOf |
| Room.DepartureLog | server.py:52-63 | definition of the goodbye broadcast of `remove_client`; see Room.ChatRoom.RemoveClient |
| Room.Depart | server.py:45-68 | a departure keeps the room consistent: usernames distinct, never more sockets than names |
| Room.AdmitConsistent | server.py:29-33 | a join with a fresh name grows both lists by one and keeps them consistent |
| Room.DepartNonMember | server.py:45-46 | removing a non-member changes nothing and sends nothing |
| Room.DepartRemovesPair | server.py:46-68 | a named member leaves as a pair: socket and name go from the same position and everything else keeps its order |
| Room.DepartCount | server.py:66 | exactly one binding of the socket leaves `clients` |
| Room.DepartEmptyName | server.py:67-68 | an empty username stays behind after its socket leaves |
| Room.DoubleJoinSurvivesDeparture | server.py:29-68 | one socket can join twice, and one departure removes only the first binding |
| Room.ChatRoom.constructor | server.py:23-27 | a new room has no members and the given key pair |
| Room.ChatRoom.Broadcast | server.py:70-78 | the loop sends to each other member in order, and failed sends are swallowed |
| Room.ChatRoom.AddClient | server.py:29-43 | both lists grow by the pair, then every member except the joiner gets the code-200 notice |
| Room.ChatRoom.RemoveClient | server.py:45-68 | the other members get the code-400 goodbye with the username and room, then the pair is removed |
| Room.ChatRoom.IsEmpty | server.py:80-81 | empty iff no socket is bound |
| Server.Sweep | server.py:201-203 | the cleanup keeps every room and its keys, and keeps each room consistent |
| Server.Vacant | server.py:205-209 | definition of the rooms `remove_empty_rooms` deletes; see Server.ChatServer.EmptyRooms and Server.ChatServer.RemoveEmptyRooms |
| Server.WellFormedRemove | server.py:211 | deleting a room keeps the room list and the directory in step |
| Server.SweepStep | server.py:202-203 | each turn of the cleanup adds that room's goodbye and keeps the directory well formed |
| Server.Drop | server.py:183-192 | an exception sweeps the socket out of every room and ends the session, keeping every room and key |
| Server.Respond | server.py:143 | the session stays open iff the reply is delivered |
| Server.Opened | server.py:106-107 | after JOIN_ROOM's first step the room exists |
| Server.JoinStep | server.py:102-144 | a join keeps every room that exists once the room is opened |
| Server.Enter | server.py:109-134 | admitting a joiner keeps the rooms and their keys |
| Server.Greet | server.py:115-143 | the welcome keeps the rooms and their keys |
| Server.RelayStep | server.py:159-175 | a relay keeps the directory well formed |
| Server.Step | server.py:93-192 | every frame keeps the directory well formed |
| Server.Run | server.py:91-192 | the whole session keeps the directory well formed |
| Server.SweepEvicts | server.py:201-203 | the cleanup takes one binding of the socket out of every room and touches no other socket |
| Server.JoinCreatesRoom | server.py:106-107 | the room exists after any join, whatever its outcome; no other room appears or goes and no key changes |
| Server.JoinWithoutKey | server.py:102-116 | a JOIN_ROOM without `public_key` leaves the room behind; a taken name gets the 409 reply, a fresh one is appended and announced, then the session ends |
| Server.OpenedRoom | server.py:106-107 | a missing room is added with the new keys; an existing one is untouched |
| Server.DuplicateJoinRejected | server.py:109-143 | a taken username gets the 409 reply and membership stays as it was |
| Server.GreetWelcomes | server.py:115-134 | the welcome is delivered and opens, under the joiner's key, to exactly the room's key pair |
| Server.JoinAdmits | server.py:109-143 | a fresh username is appended, the others get the code-200 notice, then the joiner gets the welcome |
| Server.LeaveIsNoOp | server.py:177-181 | LEAVE_ROOM changes nothing and sends nothing |
| Server.ChatRelayed | server.py:146-161 | CHAT_MESSAGE reaches every other member as USER_MESSAGE with the same text, and the directory does not change |
| Server.MediaRelayed | server.py:163-175 | MEDIA_MESSAGE with a filename field (`null` included) reaches every other member with the same text and filename; without one, KeyError ends the session |
| Server.UnknownRoomDrops | server.py:146-192 | a chat or media frame for a missing room ends the session with a full sweep |
| Server.BrokenFrameDrops | server.py:92-100 | a closed, falsy or unreadable frame sweeps the socket from every room and ends the session |
| Server.RunClosed | server.py:92-192 | after the session ends, later frames change nothing |
| Server.ChatServer.constructor | server.py:85-89 | the directory starts empty |
| Server.ChatServer.IsUsernameUnique | server.py:194-199 | false iff the room exists and lists the username; true for an unknown room |
| Server.ChatServer.RemoveClientFromRooms | server.py:201-203 | the loop visits every room in key order, leaving the directory equal to `Sweep` and the log holding the goodbyes |
| Server.ChatServer.Visit | server.py:202-203 | one room of the cleanup loop |
| Server.ChatServer.SendTo | server.py:143 | a reply changes no room |
| Server.ChatServer.BroadcastIn | server.py:159-161 | a relay changes no room and logs the fan-out |
| Server.ChatServer.CreateRoom | server.py:107 | the new empty room is appended to the key order with the new keys |
| Server.ChatServer.AddToRoom | server.py:110-112 | only the named room changes, by the join |
| Server.ChatServer.RemoveFromRoom | server.py:203 | only the named room changes, by the departure |
| Server.ChatServer.EmptyRooms | server.py:206-209 | exactly the rooms without sockets, in key order |
| Server.ChatServer.RemoveEmptyRooms | server.py:205-212 | exactly the empty rooms are deleted; the others keep their order and are not changed |
| Server.ChatServer.DeleteRooms | server.py:210-211 | the deletion loop removes exactly the collected rooms; the room list keeps the others in order and no kept room changes |
| Server.ChatServer.DeleteVacant | server.py:210-211 | one more empty room deleted |
| Server.ChatServer.DeleteRoom | server.py:211 | `del` removes exactly that room |
| Server.ChatServer.Abort | server.py:188-192 | the `except` path matches `Drop` |
| Server.ChatServer.AbortAfter | server.py:188-192 | the `except` path after earlier sends matches `Drop` |
| Server.ChatServer.Relay | server.py:159-175 | the relay matches `RelayStep` |
| Server.ChatServer.Reply | server.py:143 | the reply matches `Respond` |
| Server.ChatServer.OpenRoom | server.py:106-107 | the room list and directory match `Opened`; existing room objects are kept |
| Server.ChatServer.EnterRoom | server.py:109-113 | the admission matches `Enter` |
| Server.ChatServer.GreetJoiner | server.py:115-143 | the welcome matches `Greet` |
| Server.ChatServer.HandleJoin | server.py:102-144 | the JOIN_ROOM branch matches `JoinStep` |
| Server.ChatServer.Handle | server.py:93-192 | one turn of the loop matches `Step` |
| Server.ChatServer.HandleClient | server.py:91-192 | the loop matches `Run`; when it stops early, the session had ended |
| Peer.Word | client.py:156 | the longest leading run of non-whitespace |
| Peer.SplitWords | client.py:156 | `split()` words are non-empty and hold no whitespace |
| Peer.SplitTwo | client.py:156 | a word, whitespace and another word split into exactly those two words |
| Peer.WordOf | client.py:156 | a word stops exactly where whitespace starts |
| Peer.SkipSpace | client.py:156 | leading whitespace is skipped |
| Peer.Basename | client.py:159 | the base name is the longest suffix without '/' |
| Peer.Split | client.py:156 | definition of `str.split()`; see Peer.SplitWords, Peer.SplitTwo |
| Peer.Build | client.py:154-178 | definition of what one typed line sends; see Peer.BuildSkips, Peer.MediaBuilt, Peer.ChatBuilt |
| Peer.BuildSkips | client.py:154-168 | nothing is sent exactly for a `/media` line with no path or an unreadable file; only a chat line can raise, and without a room key it does |
| Peer.MediaBuilt | client.py:154-178 | a readable file goes out as MEDIA_MESSAGE with the bytes as hex, not encrypted, and the base name as filename; `fromhex` gives back the bytes |
| Peer.MediaLine | client.py:154-156 | `/media`, whitespace and a path: the path is the second word |
| Peer.ChatBuilt | client.py:165-178 | an ASCII chat line goes out as CHAT_MESSAGE whose payload opens to the line under the room's private key |
| Peer.Install | client.py:103-112 | the public key is what the public field opens to, the private key what the private field opens to once the public key is in, and success means both are in; a failed private step leaves the public key installed |
| Peer.MediaName | client.py:123 | the name a received file is saved under: the filename, "unknown" when the field is missing, none (path joining raises) when it is `null` |
| Peer.InstallWelcome | client.py:103-112 | the server's welcome installs exactly the room's key pair |
| Peer.ReadChat | client.py:115-116 | without the private key, decrypting raises |
| Client.Receive | client.py:83-135 | definition of one turn of the receive loop; see the Client lemmas below |
| Client.Run | client.py:79-145 | definition of the receive loop over a stream of frames; see Client.RunKeepsKeys |
| Client.ConflictRejoins | client.py:91-101 | a 409 adopts the typed name and sends a fresh JOIN_ROOM for the same room with the same public key; the loop goes on and the keys stay |
| Client.UnknownColorEnds | client.py:88-90 | a colour missing from the table ends the loop and changes nothing else |
| Client.ReceiveKeepsKeys | client.py:103 | installed keys are never replaced, whatever the frame |
| Client.RunKeepsKeys | client.py:103-112 | keys are installed at most once over a run |
| Client.WelcomeInstallsRoomKeys | client.py:103-112 | the welcome, arriving before any keys, installs exactly the room's key pair |
| Client.EmptyChatIgnored | client.py:114 | a USER_MESSAGE with an empty payload is ignored |
| Client.ChatDelivered | client.py:114-119 | an ASCII line, built and relayed, is shown to another member as exactly that line under the sender's name |
| Client.MediaDelivered | client.py:121-135 | a file sent with `/media` and relayed is saved under its base name with exactly its bytes |
| Client.MediaSaved | client.py:121-135 | media is saved as the bytes its hex spells, under its filename or "unknown" when it has none; bad hex or a `null` filename ends the loop with nothing saved |
| Client.Builds | client.py:148-182 | one build result per typed line |
| Client.BuildsAt | client.py:149-168 | entry `i` is the build of line `i` |
| Client.BuildsPrefix | client.py:149-168 | the builds of a prefix are a prefix of the builds |
| Client.SentAllSnoc | client.py:180-182 | one more line adds its send, if any |
| Client.SentAllSends | client.py:180-182 | when every line builds, each is sent once, in order |
| Client.SentAllSkips | client.py:161-163 | skipped lines send nothing |
| Client.TypedAllSent | client.py:148-182 | lines that all build are sent, in typing order, each as its own frame |
| Client.ChatClient.constructor | client.py:54-59 | a client starts with no keys and nothing done |
| Client.ChatClient.Connect | client.py:61-71 | the opening JOIN_ROOM carries the username, the room and the client's public key |
| Client.ChatClient.ReceiveOne | client.py:83-145 | one turn of the loop matches `Receive` |
| Client.ChatClient.InstallKeys | client.py:103-112 | the install matches `Install`, public key first |
| Client.ChatClient.ReceiveMessages | client.py:79-145 | the loop matches `Run`; when it stops early, the loop had ended |
| Client.ChatClient.InputLoop | client.py:148-182 | the loop sends what `Builds` gives for the lines read; it stops exactly at the first line that raises |
| Web.Joined | WEB/flask_app.py:224-228 | definition of the registry update on join; see Web.JoinedRegistry |
| Web.Disconnected | WEB/flask_app.py:298-306 | definition of the registry update on disconnect; see Web.DisconnectedRegistry |
| Web.Posted | WEB/flask_app.py:248-276 | definition of what a posted line sends; see Web.PostedLikeConsole |
| Web.Receive | WEB/flask_app.py:133-182 | definition of one turn of the receive loop; see the Web lemmas below |
| Web.Run | WEB/flask_app.py:127-190 | definition of the receive loop over a stream of frames; see Web.RunKeepsKeys, Web.RunClosed |
| Web.JoinedRegistry | WEB/flask_app.py:224-228 | a join inserts into an existing room, leaves an existing entry, or creates the room holding just that user; no other room changes |
| Web.DisconnectedRegistry | WEB/flask_app.py:298-306 | a disconnect removes exactly that entry and keeps the room; it fails exactly for an unknown user |
| Web.PostedLikeConsole | WEB/flask_app.py:248-276 | the bridge runs the console client's `Build` on the line, with the user's name and room, and fails exactly for an unknown user |
| Web.ConflictForwarded | WEB/flask_app.py:138-143 | a 409 is forwarded and nothing else happens: no new JOIN_ROOM |
| Web.GoodbyeRemoves | WEB/flask_app.py:144-146 | a code 400 removes the departed user when held; otherwise KeyError ends the loop |
| Web.ReceiveConsistent | WEB/flask_app.py:144-146 | registry entries stay tied to their own room and name |
| Web.ReceiveKeepsKeys | WEB/flask_app.py:148 | installed keys are never replaced |
| Web.RunKeepsKeys | WEB/flask_app.py:148-158 | keys are installed at most once over a run |
| Web.WelcomeInstallsRoomKeys | WEB/flask_app.py:148-158 | the welcome is forwarded and installs exactly the room's key pair |
| Web.ChatForwarded | WEB/flask_app.py:160-165 | an ASCII line, built and relayed, reaches the browser decrypted under the sender's name |
| Web.MediaForwarded | WEB/flask_app.py:167-182 | media is forwarded, saved as its bytes under its filename or "unknown", and forwarded again; bad hex or a `null` filename ends the loop after the first forward |
| Web.RunClosed | WEB/flask_app.py:133-190 | after the loop ends, later frames are never read |
| Web.Bridge.constructor | WEB/flask_app.py:15-18 | the bridge starts with an empty registry and no keys |
| Web.Bridge.HandleJoin | WEB/flask_app.py:208-230 | the registry becomes `Joined`, then JOIN_ROOM is sent with the bridge's public key; a failed connect or send leaves the entry and sends nothing |
| Web.Bridge.HandleMessage | WEB/flask_app.py:233-281 | the result matches `Posted`: the frame is sent only when built and the send succeeds; an unknown user sends nothing |
| Web.Bridge.UserDisconnect | WEB/flask_app.py:284-307 | LEAVE_ROOM is sent and exactly that entry is deleted; an unknown user, or a send that raises, changes nothing |
| Web.Bridge.ReceiveOne | WEB/flask_app.py:133-190 | one turn of the loop matches `Receive` |
| Web.Bridge.InstallKeys | WEB/flask_app.py:148-158 | the install matches `Install`, public key first |
| Web.Bridge.ReceiveMessages | WEB/flask_app.py:127-190 | the loop matches `Run`; when it stops early, the loop had ended |

The witness scheme `Pkcs1` also carries two lemmas about its own decimal
key text, which has no counterpart in the source: `Pkcs1.ReadFieldsFields`
(the text reads back the numbers it was written from) and
`Pkcs1.FieldsAscii` (the text is ASCII). They serve
`Pkcs1.PaddingSchemeValid`.

## Left out

- The network is not modelled: websocket connections, `recv`, asyncio
  scheduling and concurrency are absent. Sends are logged entries. On the
  server, a set of failing sockets decides which sends raise; in the
  bridge, a `delivered` flag per call decides whether its connect or send
  raises. Inbound frames are given as a sequence.
- JSON encoding and decoding are not modelled. Frames are a closed datatype.
  On the server, a frame `json.loads` cannot read, or one that lacks a field
  its handler reads before doing anything, is the `Malformed` event. Two
  missing fields are kept in the frame instead, because what happens
  depends on them: a JOIN_ROOM without `public_key` (`publicKey` is `None`;
  the field is read only after the joiner is admitted), and a
  MEDIA_MESSAGE whose `filename` is missing or `null` (`Protocol.FileName`).
  Peers never receive a frame the server could not read.
- The RSA arithmetic, key generation and PEM format (RFC 7468) are opaque.
  A fresh room key pair is a parameter (`keygen`).
- Printing, colorama colours (beyond the KeyError of an unknown colour),
  `input()`, the threads of the console client and `emit` are not modelled
  as I/O. A shown line, an emit and a saved file are recorded effects.
  `input()` answers are parameters.
- File I/O is a parameter or a recorded effect. A file read is a function
  `read`. `os.makedirs`, path joining and writing are a `Saved` effect. A
  path the file system rejects is not modelled.
- The console client's sends cannot fail in the model. A send that raises
  would kill the input thread.
- Rsa.Scheme: `encryptBlock` is a function, so one block always encrypts
  to the same bytes. `rsa.encrypt` pads with random bytes, so in the source
  two encryptions of one line differ. Web.PostedLikeConsole therefore says
  that the bridge runs the console client's `Build`, not that the two
  programs send equal bytes.
- Flask routing, the HTTP JSON reply of `user_disconnect`, and
  `WEB/static/script.js` are not modelled.
- Web.Bridge.HandleJoin: the receive loop that `connect_to_server` starts is
  modelled separately as `Web.Bridge.ReceiveMessages`. Each bridge
  connection shares the registry and the keys.
- Server: `start_server` is not modelled beyond `RemoveEmptyRooms`.
  `websockets.serve` and the startup ordering are left out.
- The LEAVE_ROOM frame's `code` field (400) is implied by the constructor
  and not stored.
