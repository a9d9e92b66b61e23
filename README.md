# Room server and game-message decoder

A model of two parts of a small multiplayer game server written in Rust.

- **Game-message decoder** (`src/messages.rs`). It reads a message as a stream of bytes:
  - unbounded integers use a sentinel-continued encoding: 0xFF introduces one more base-256 digit;
  - a board point is one such integer, the linear index `y * width + x`;
  - a move is a point, a direction byte and a number of units;
  - three game messages are built on these: a cell update, a move, and a replay of moves with skips;
  - an envelope maps a flag byte and a 4-bit id to a message type.
- **Chat-room server** (`src/bin/server.rs`). One shared `Server` object holds:
  - the known senders;
  - the room names and the room each client is in;
  - each client's alias and each room's members;
  - a counter that numbers new rooms.

  Text frames starting with `#` join a room, text frames starting with `@` set an alias, any other text is chat sent to the room, and binary frames are ignored. When a connection closes, the client leaves its room and loses its alias.

The model has four modules:

- `Wire` (`wire.dfy`): cursor parsers over `seq<byte>`. Each returns `Option<(value, rest)>`. An iterator that the source advances in place becomes the remaining sequence.
- `Bodies` (`bodies.dfy`): the three game-message bodies. `parse_update` and `parse_replay` loop, so they are methods. Each is proved equal to a recursive specification function, and the round-trip and truncation lemmas are stated on those functions.
- `Envelope` (`envelope.dfy`): the message types, the flags, `parse_message_type`, `parse_GameMessage` and `handle_message`.
- `RoomServer` (`server.dfy`): the `Server` class. Its fields are updated in place by methods with `modifies this`. The invariant `Valid` is what makes every `unwrap` and `?` on `rooms` succeed.

The decoder has no encoder. `Wire.Encode`, `Wire.EncodeMove`, `Bodies.EncodeCells` and `Bodies.EncodeEntries` are reference encoders, written as the partners of the parsers. The decoder is also characterised without an encoder, by the closed-form `Wire.IsChain` and `Wire.ChainValue`.

## Model

| member | source | states |
|---|---|---|
| Wire.ParseUnbounded | src/messages.rs:132-137 | reading an integer consumes at least one byte; empty input gives None |
| Wire.ParseUnboundedFrom | src/messages.rs:139-148 | a first byte below 0xFF is the value itself, and nothing more is consumed |
| Wire.ParseChain | src/messages.rs:139-148 | every well-formed chain decodes to its base-256 value, and the bytes after it are left untouched |
| Wire.ParseConsumesChain | src/messages.rs:132-148 | whatever decodes consumed exactly a well-formed chain, and the value is that chain's value |
| Wire.ParseTruncatedChain | src/messages.rs:143-144 | a strict prefix of a chain is absent, never a shorter value |
| Wire.EncodeIsChain | src/messages.rs:139-148 | the reference encoding of every natural number is a chain with that value |
| Wire.UnboundedRoundTrip | src/messages.rs:132-148 | decoding the encoding of any v, followed by any bytes, gives v and leaves exactly those bytes |
| Wire.UnboundedTruncated | src/messages.rs:143-144 | a cut-short encoding decodes to None |
| Wire.UnboundedNotInjective | src/messages.rs:139-148 | `[b]` and `[0xFF, b, 0]` both decode to b, so the wire form is not canonical |
| Wire.UnboundedExtend | src/messages.rs:132-148 | appending bytes never changes a successful decode; they only lengthen the rest |
| Wire.UnboundedSuffix | src/messages.rs:132-148 | the rest after a decode is a suffix of the input |
| Wire.NoOverflowIffFits | src/messages.rs:144 | no intermediate `u32` product or sum overflows exactly when the decoded value is below 2^32 |
| Wire.ParsePointFrom | src/messages.rs:160-166 | a point decodes iff its index does; then x < width and y * width + x is the index, and the rest is the index's rest |
| Wire.ParsePoint | src/messages.rs:153-158 | as `ParsePointFrom`, after taking the first byte from the input |
| Wire.DivModIndex | src/messages.rs:165 | for x < width, the index y * width + x splits back into x and y |
| Wire.PointRoundTrip | src/messages.rs:153-166 | every on-board point survives encoding and decoding, whatever follows it |
| Wire.ParseMoveFields | src/messages.rs:102-110 | a decoded move consumed at least three bytes and its point is on the board |
| Wire.MoveRoundTrip | src/messages.rs:102-110 | every move with an on-board point survives encoding and decoding |
| Wire.MoveTruncated | src/messages.rs:102-110 | any strict prefix of an encoded move is absent |
| Wire.MoveExtend | src/messages.rs:102-110 | appending bytes never changes a decoded move |
| Wire.MoveFromChains | src/messages.rs:102-110 | a chain for the point, any direction byte and a chain for the units, followed by anything, decode to that move, with the point being the first chain's value split by the width; this covers non-canonical chains such as `[0xFF, b, 0]` |
| Wire.MoveConsumesChains | src/messages.rs:102-110 | every decoded move consumed exactly a point chain, the direction byte and a unit chain, whose values are the point's index and the unit count |
| Bodies.UpdateCells | src/messages.rs:77-86 | the body yields equally many points and values, and every decoded point has x < width |
| Bodies.DecodeUpdate | src/messages.rs:71-88 | fewer than two bytes give None; otherwise an Update carrying the first two bytes as player and width, with equally long point and value lists and every point on the board |
| Bodies.ParseUpdate | src/messages.rs:71-88 | the loop computes exactly `DecodeUpdate` |
| Bodies.UpdateHeader | src/messages.rs:71-76 | after the two header bytes, the update is the body's cells |
| Bodies.CellsAppend | src/messages.rs:77-86 | encoded cells followed by any tail decode to those cells followed by the tail's cells |
| Bodies.UpdateRoundTrip | src/messages.rs:71-88 | every update whose points are on a board of positive width round-trips |
| Bodies.UpdateEmptyBody | src/messages.rs:77-81 | two header bytes alone give an update with no cells |
| Bodies.UpdateTruncated | src/messages.rs:82-83 | a last cell cut short makes the whole update absent; earlier cells are not returned |
| Bodies.ParseMove | src/messages.rs:90-97 | a move message decodes exactly when its input is non-empty and the move after the first byte decodes at that byte's width; the move is that decoded move, its width is the first byte, and it has at least four bytes with the point on the board |
| Bodies.MoveMessageRoundTrip | src/messages.rs:90-97 | width byte, encoded move and any trailing bytes decode to that move |
| Bodies.MoveMessageTruncated | src/messages.rs:90-97 | a cut-short move makes the message absent |
| Bodies.MoveIgnoresTrailing | src/messages.rs:90-97 | bytes after the move change nothing |
| Bodies.ReplayEntries | src/messages.rs:119-128 | the body yields equally many moves and skips, and every decoded move's point has x < width |
| Bodies.DecodeReplay | src/messages.rs:112-131 | fewer than two bytes give None; otherwise a Replay carrying player and width from the header, with equally long move and skip lists and every move's point on the board |
| Bodies.ParseReplay | src/messages.rs:112-131 | the loop computes exactly `DecodeReplay` |
| Bodies.ReplayHeader | src/messages.rs:112-118 | after the two header bytes, the replay is the body's entries |
| Bodies.EntriesAppend | src/messages.rs:119-128 | encoded entries followed by any tail decode to those entries followed by the tail's |
| Bodies.ReplayRoundTrip | src/messages.rs:112-131 | every replay whose moves are on a board of positive width round-trips |
| Bodies.ReplayEmptyBody | src/messages.rs:119-123 | two header bytes alone give a replay with no entries |
| Bodies.ReplayTruncated | src/messages.rs:124-125 | a last entry cut short makes the whole replay absent |
| Envelope.MetaFromByte | src/messages.rs:188-195 | as written, every flag is false for every byte |
| Envelope.MetaBitLost | src/messages.rs:190 | byte 0x80 has the meta bit set but reports `meta` clear |
| Envelope.MetaFromByteFixed | src/messages.rs:188-195 | with a non-zero test, each flag is exactly its bit: meta 7, error 6, info 5, from_server 4 |
| Envelope.ParseMessageType | src/messages.rs:31-49 | an id gives a type iff it is 1 to 4; the family is control when `meta` is set, game otherwise; the type found is the one whose position in its family is the id (Login/UpdateCell 1, EnterRoom/Move 2, Ping/Status 3, Info/Replay 4) |
| Envelope.ParseMessageTypeOfId | src/messages.rs:31-49 | every type of the selected family is found from its own id |
| Envelope.MessageTypeInjective | src/messages.rs:31-49 | within a family, distinct ids give distinct types |
| Envelope.ParseGameMessage | src/messages.rs:62-69 | UpdateCell, Move and Replay are decoded by `DecodeUpdate`, `ParseMove` and `DecodeReplay` respectively; every other type gives None |
| Envelope.UpdateExample | src/messages.rs:62-88 | id 1 with a clear flag byte is UpdateCell, and `[3, 5, 7, 7]` is player 3, width 5, cell (2, 1) set to 7 |
| Envelope.ScreenFlags | src/messages.rs:171-185 | a message is accepted iff neither from_server nor meta is set; a refusal is MalformedMessage, and from_server is checked first |
| Envelope.HandleMessage | src/messages.rs:168-186 | as written, every input is accepted |
| Envelope.HandleMessageFixedFlags | src/messages.rs:168-186 | with the intended flag test, the constant byte 0x4F is still accepted |
| Envelope.FromServerRejected | src/messages.rs:171-176 | with the intended flag test, any byte with bit 4 set is refused with the from-server reason |
| RoomServer.RouteOf | src/bin/server.rs:107-119 | '#' text joins, '@' text is an alias, other text is chat, binary is ignored |
| RoomServer.Broadcast | src/bin/server.rs:27-31 | the loop completes iff every room member has a sender |
| RoomServer.Server.constructor | src/bin/server.rs:80-89 | all tables are empty, the counter is 0, and both invariants hold |
| RoomServer.Server.Connect | src/bin/server.rs:156-158 | the new token joins `senders`; nothing else changes |
| RoomServer.Server.GenerateRoom | src/bin/server.rs:90-95 | registers the name under the old counter with an empty room, advances the counter, and returns the advanced counter |
| RoomServer.Server.GenerateRoomIntended | src/bin/server.rs:90-95 | the same tables, but it returns the id it registered; `Coherent` is kept |
| RoomServer.Server.MoveToRoom | src/bin/server.rs:44-57 | a client already in the target stays put; otherwise it leaves its old room and enters the target, which is created if needed. The lookup never fails, and `Valid` is kept |
| RoomServer.Server.JoinRoom | src/bin/server.rs:35-60 | a known name targets its room, and an unknown name is registered first. The whole new state is stated: inRoom, rooms, names and the counter. `Valid` is kept and the call never fails |
| RoomServer.Server.JoinRoomIntended | src/bin/server.rs:35-60 | with the intended generate_room, the client ends in the room registered for the name; the whole new `rooms` table is stated (left old room, entered the target), other clients' `inRoom` entries are unchanged, and `Coherent` is kept |
| RoomServer.Server.Alias | src/bin/server.rs:61-67 | the client's alias becomes the text; nothing else changes |
| RoomServer.Server.SendMessage | src/bin/server.rs:18-34 | a client without a room changes nothing. Otherwise the sent text is alias-or-"anonymous" + ":" + msg, an existing alias is overwritten with that text, and it succeeds iff every member has a sender |
| RoomServer.Server.OnClose | src/bin/server.rs:137-145 | the client leaves its room and loses its alias; room ids, names, senders and the counter stay; both invariants are kept |
| RoomServer.Server.OnMessage | src/bin/server.rs:104-126 | each route has the full new state of the operation it calls: the join route gives the new names, counter, inRoom and rooms of `JoinRoom`; the alias route sets the alias and leaves everything else; the chat route extends a stored alias by ":" and the text and leaves everything else. Binary frames change nothing; `Valid` is kept |
| RoomServer.SplitJoin | src/bin/server.rs:38-42 | two clients joining the same new name end in rooms 1 and 0 |
| RoomServer.EvictedByNextRoom | src/bin/server.rs:90-95 | a client recorded in room 1 is no longer among its members once the next name is registered as room 1 |
| RoomServer.SharedJoin | src/bin/server.rs:38-42 | with the intended generate_room, two joiners of one name share room 0 |

## Left out

- **Transport and output.** The websocket transport, `listen`, the `Sender` handles, the messages actually sent and every `println!` are not modelled. A sender is known only by its token, and `Broadcast` decides only whether the loop completes. `on_open` and `on_error` do nothing and are not modelled.
- **Shared ownership.** The `Rc<RefCell<..>>` sharing of the server is not modelled; the model has one `Server` object whose methods take the client's token.
- **Integer widths.**
  - Decoded values are `nat`. The `u32` overflow that panics in a debug build is characterised by `Wire.NoOverflowIffFits` instead of being modelled as a panic.
  - `to_generate` is `nat`, so its `usize` overflow is not modelled.
  - Widths are `nat`, even where the source stores a `u8` width, because the `GameMessage` variants share the field. Every width comes from one byte, so it is below 256 anyway.
- **Division by zero.** A width of 0 panics in `num % width`. The parsers instead require the exact condition under which that division is reached: `CellsSafe`, `MoveSafe`, `EntriesSafe` and `ParsePointFrom`'s requires.
- **Error texts.** The texts in `Error` are replaced by the `Reason` that produced them.
- **Unused variant.** `MetaMessage` (`src/messages.rs:8-10`) is never used and is not modelled.
- **Source that does not compile.** `parse_message_type` names `Updatecell` and unqualified variants, which does not compile. The model follows the evident meaning, `MessageType::UpdateCell`.
- **Flag-bit layout.** The error text at `src/messages.rs:173` says the from-server flag is the first bit, but the masks at `src/messages.rs:190-193` put it at 0x10 (and meta at 0x80, error at 0x40, info at 0x20). This model follows the masks.
- **No unrepresentable values.** A most-significant digit of 255 might look unencodable, since 0xFF is the sentinel. No such case arises: the reference encoder writes a value of 255 or more as a sentinel pair, so its last digit is always below 255, and every natural number decodes back from its encoding (`Wire.EncodeIsChain`, `Wire.UnboundedRoundTrip`).
- **String and control codecs.** `src/messages.rs` has no string codec and no control-message body parser, so neither is modelled.

## Findings

| source | as written | input that shows it | evidently intended | confidence | as-written member | corrected member |
|---|---|---|---|---|---|---|
| src/messages.rs:190-193 | each flag is `first & mask == 1`, which is never true for a mask other than 1 | first byte 0x80 reports `meta` clear, and 0x10 reports `from_server` clear | `first & mask != 0` | high, not executed | Envelope.MetaBitLost | Envelope.MetaFromByteFixed |
| src/bin/server.rs:93-94 | `generate_room` returns the counter after incrementing it, one past the id it registered | two clients join "#lobby" on a fresh server: the first lands in room 1, the second in room 0 | return the registered id (the counter before the increment) | high, not executed | RoomServer.SplitJoin | RoomServer.SharedJoin |
| src/bin/server.rs:92 | the off-by-one room is later overwritten with an empty set by the next registration | client 1 joins "#a", then client 2 joins "#b": client 1 is still recorded in room 1 but is not a member of it | every client is a member of its recorded room (`Coherent`) | high, not executed | RoomServer.EvictedByNextRoom | RoomServer.Server.JoinRoomIntended |

`handle_message` is modelled as written (`Envelope.HandleMessage`), with the flags as `meta_from_byte` computes them. Its constant first byte 0x4F would be accepted under either flag test (`Envelope.HandleMessageFixedFlags`).
