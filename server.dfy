/** Room and alias bookkeeping of the chat server (src/bin/server.rs).

    One `Server` object holds the tables every connection shares: the known
    senders, room names, the room each client is in, each client's alias,
    the members of each room and the counter used to number new rooms. The
    websocket transport is abstracted away: a connection is an opaque
    `Token`, a sender is known only by the token it belongs to, and sending
    a message does nothing observable. */
module RoomServer {

  /** A connection's identity (`ws::util::Token`). */
  type Token = nat

  /** A websocket frame as handed to `on_message`. */
  datatype WsMessage = Text(text: string) | Binary(data: seq<bv8>)

  /** What `on_message` does with a frame. */
  datatype Route = JoinRoute | AliasRoute | SendRoute | Ignore

  /** Text starting with '#' names a room to join, text starting with '@' is
      an alias, any other text is chat; binary frames are ignored. */
  function RouteOf(msg: WsMessage): (r: Route)
    ensures r == Ignore <==> msg.Binary?
    ensures r == JoinRoute <==> msg.Text? && |msg.text| > 0 && msg.text[0] == '#'
    ensures r == AliasRoute <==> msg.Text? && |msg.text| > 0 && msg.text[0] == '@'
  {
    match msg
    case Binary(_) => Ignore
    case Text(x) =>
      if |x| > 0 && x[0] == '#' then JoinRoute
      else if |x| > 0 && x[0] == '@' then AliasRoute
      else SendRoute
  }

  /** The room a `join_room` for `name` ends up targeting: the registered room
      if the name is known, otherwise what `generate_room` returns, which is
      one past the id it registers. */
  function JoinTarget(names: map<string, nat>, toGenerate: nat, name: string): nat {
    if name in names then names[name] else toGenerate + 1
  }

  /** `rooms` after client `id` has left whatever room `inRoom` records. */
  function Leave(rooms: map<nat, set<Token>>, inRoom: map<Token, nat>, id: Token): map<nat, set<Token>> {
    if id in inRoom && inRoom[id] in rooms then rooms[inRoom[id] := rooms[inRoom[id]] - {id}] else rooms
  }

  /** `rooms` after client `id` has entered `room`, creating it if needed. */
  function Enter(rooms: map<nat, set<Token>>, room: nat, id: Token): map<nat, set<Token>> {
    rooms[room := (if room in rooms then rooms[room] else {}) + {id}]
  }

  /** Hands a message to the sender of every member of a room, in no
      particular order; a member without a sender stops the loop early
      (the source's `senders.get(&token)?`). The send itself is not modelled. */
  method Broadcast(members: set<Token>, senders: set<Token>) returns (ok: bool)
    ensures ok <==> members <= senders
  {
    var todo := members;
    while todo != {}
      invariant todo <= members
      invariant members - todo <= senders
      decreases todo
    {
      var t :| t in todo;
      if t !in senders {
        return false;
      }
      todo := todo - {t};
    }
    return true;
  }

  class Server {
    var senders: set<Token>
    var names: map<string, nat>
    var inRoom: map<Token, nat>
    var alias: map<Token, string>
    var rooms: map<nat, set<Token>>
    var toGenerate: nat

    /** Every room a client is recorded in exists, every named room id was
        handed out by the counter, and no room id lies beyond the counter.
        The first conjunct is why the source's `unwrap`s and `?`s on `rooms`
        never fail. */
    ghost predicate Valid()
      reads this
    {
      && (forall t :: t in inRoom ==> inRoom[t] in rooms)
      && (forall n :: n in names ==> names[n] < toGenerate)
      && (forall k :: k in rooms ==> k <= toGenerate)
    }

    /** What the room tables are evidently meant to satisfy: each client is a
        member of the room it is recorded in, and every room id is below the
        counter. The operations as written do not keep it (see `JoinRoom`). */
    ghost predicate Coherent()
      reads this
    {
      && Valid()
      && (forall t :: t in inRoom ==> t in rooms[inRoom[t]])
      && (forall k :: k in rooms ==> k < toGenerate)
    }

    /** All tables empty and the counter at 0. */
    constructor ()
      ensures Valid() && Coherent()
      ensures senders == {} && names == map[] && inRoom == map[] && alias == map[]
      ensures rooms == map[] && toGenerate == 0
    {
      senders, names, inRoom, alias, rooms, toGenerate := {}, map[], map[], map[], map[], 0;
    }

    /** A new connection registers its sender. */
    method Connect(id: Token)
      requires Valid()
      modifies this
      ensures senders == old(senders) + {id}
      ensures names == old(names) && inRoom == old(inRoom) && alias == old(alias)
      ensures rooms == old(rooms) && toGenerate == old(toGenerate)
      ensures Valid() && (old(Coherent()) ==> Coherent())
    {
      senders := senders + {id};
    }

    /** Registers `name` under the current counter, gives that room an empty
        member set and advances the counter; as written it returns the
        advanced counter, one past the id it registered. */
    method GenerateRoom(name: string) returns (id: nat)
      requires Valid()
      modifies this
      ensures names == old(names)[name := old(toGenerate)]
      ensures rooms == old(rooms)[old(toGenerate) := {}]
      ensures toGenerate == old(toGenerate) + 1
      ensures id == old(toGenerate) + 1
      ensures senders == old(senders) && inRoom == old(inRoom) && alias == old(alias)
      ensures Valid() && (old(Coherent()) ==> Coherent())
    {
      names := names[name := toGenerate];
      rooms := rooms[toGenerate := {}];
      toGenerate := toGenerate + 1;
      id := toGenerate;
    }

    /** `generate_room` as evidently intended: it returns the id it registered. */
    method GenerateRoomIntended(name: string) returns (id: nat)
      requires Valid()
      modifies this
      ensures id == old(toGenerate) && id < toGenerate
      ensures names == old(names)[name := id]
      ensures rooms == old(rooms)[id := {}]
      ensures toGenerate == old(toGenerate) + 1
      ensures senders == old(senders) && inRoom == old(inRoom) && alias == old(alias)
      ensures Valid() && (old(Coherent()) ==> Coherent())
    {
      id := toGenerate;
      names := names[name := id];
      rooms := rooms[id := {}];
      toGenerate := toGenerate + 1;
    }

    /** The second half of `join_room`: a client already in `room` stays put;
        otherwise it leaves its current room (if any) and enters `room`,
        which is created if missing. The lookup of its current room cannot
        fail, so `ok` always holds. */
    method MoveToRoom(id: Token, room: nat) returns (ok: bool)
      requires Valid() && room <= toGenerate
      modifies this
      ensures ok
      ensures id in old(inRoom) && old(inRoom)[id] == room ==>
                inRoom == old(inRoom) && rooms == old(rooms)
      ensures !(id in old(inRoom) && old(inRoom)[id] == room) ==>
                && inRoom == old(inRoom)[id := room]
                && rooms == Enter(Leave(old(rooms), old(inRoom), id), room, id)
      ensures senders == old(senders) && names == old(names) && alias == old(alias)
      ensures toGenerate == old(toGenerate)
      ensures Valid()
      ensures old(Coherent()) && room < toGenerate ==> Coherent()
    {
      if id in inRoom {
        var current := inRoom[id];
        if current == room {
          return true;
        }
        if current !in rooms {
          return false;
        }
        rooms := rooms[current := rooms[current] - {id}];
        inRoom := inRoom - {id};
      }
      var members := if room in rooms then rooms[room] else {};
      rooms := rooms[room := members + {id}];
      inRoom := inRoom[id := room];
      ok := true;
    }

    /** Client `id` joins the room called `name` (the whole text, '#'
        included). A known name gives its registered room; an unknown name is
        registered through `GenerateRoom`, and the client is then placed in
        the room that call returned, one past the room registered for the
        name. */
    method JoinRoom(id: Token, name: string) returns (ok: bool)
      requires Valid()
      modifies this
      ensures ok
      ensures name in old(names) ==> names == old(names) && toGenerate == old(toGenerate)
      ensures name !in old(names) ==>
                && names == old(names)[name := old(toGenerate)]
                && toGenerate == old(toGenerate) + 1
      ensures var target := JoinTarget(old(names), old(toGenerate), name);
              var registered := if name in old(names) then old(rooms) else old(rooms)[old(toGenerate) := {}];
              if id in old(inRoom) && old(inRoom)[id] == target then
                inRoom == old(inRoom) && rooms == registered
              else
                && inRoom == old(inRoom)[id := target]
                && rooms == Enter(Leave(registered, old(inRoom), id), target, id)
      ensures senders == old(senders) && alias == old(alias)
      ensures Valid()
    {
      var room;
      if name in names {
        room := names[name];
      } else {
        room := GenerateRoom(name);
      }
      ok := MoveToRoom(id, room);
    }

    /** `join_room` with the intended `generate_room`: the client lands in the
        room registered under `name`, and the intended invariant is kept. */
    method JoinRoomIntended(id: Token, name: string) returns (ok: bool)
      requires Valid()
      modifies this
      ensures ok
      ensures name in names && id in inRoom && inRoom[id] == names[name]
      ensures name in old(names) ==> names == old(names) && toGenerate == old(toGenerate)
      ensures name !in old(names) ==>
                && names == old(names)[name := old(toGenerate)]
                && toGenerate == old(toGenerate) + 1
      ensures var target := if name in old(names) then old(names)[name] else old(toGenerate);
              var registered := if name in old(names) then old(rooms) else old(rooms)[old(toGenerate) := {}];
              if id in old(inRoom) && old(inRoom)[id] == target then
                inRoom == old(inRoom) && rooms == registered
              else
                && inRoom == old(inRoom)[id := target]
                && rooms == Enter(Leave(registered, old(inRoom), id), target, id)
      ensures forall t :: t != id ==> (t in inRoom <==> t in old(inRoom))
      ensures forall t :: t != id && t in inRoom ==> inRoom[t] == old(inRoom)[t]
      ensures senders == old(senders) && alias == old(alias)
      ensures Valid()
      ensures old(Coherent()) ==> Coherent() && id in rooms[inRoom[id]]
    {
      var room;
      if name in names {
        room := names[name];
      } else {
        room := GenerateRoomIntended(name);
      }
      ok := MoveToRoom(id, room);
    }

    /** Client `id` takes `name` (the whole text, '@' included) as its alias. */
    method Alias(id: Token, name: string)
      requires Valid()
      modifies this
      ensures alias == old(alias)[id := name]
      ensures senders == old(senders) && names == old(names) && inRoom == old(inRoom)
      ensures rooms == old(rooms) && toGenerate == old(toGenerate)
      ensures Valid() && (old(Coherent()) ==> Coherent())
    {
      if id in alias {
        alias := alias - {id};
      }
      alias := alias[id := name];
    }

    /** Chat from client `id`. Nothing happens unless the client is in a room.
        Then the text sent is its alias (or "anonymous"), a colon and `msg`;
        because the source appends to the alias it looked up in place, a
        client with an alias has that text stored as its new alias. `ok` is
        false exactly when some member of the room has no sender. */
    method SendMessage(id: Token, msg: string) returns (ok: bool, sent: string)
      requires Valid()
      modifies this
      ensures id !in old(inRoom) ==> ok && sent == [] && alias == old(alias)
      ensures id in old(inRoom) ==>
                && sent == (if id in old(alias) then old(alias)[id] else "anonymous") + ":" + msg
                && alias == (if id in old(alias) then old(alias)[id := sent] else old(alias))
                && (ok <==> old(rooms)[old(inRoom)[id]] <= senders)
      ensures senders == old(senders) && names == old(names) && inRoom == old(inRoom)
      ensures rooms == old(rooms) && toGenerate == old(toGenerate)
      ensures Valid() && (old(Coherent()) ==> Coherent())
    {
      ok, sent := true, [];
      if id in inRoom {
        var room := inRoom[id];
        var output := if id in alias then alias[id] else "anonymous";
        output := output + ":" + msg;
        if id in alias {
          alias := alias[id := output];
        }
        sent := output;
        ok := Broadcast(rooms[room], senders);
      }
    }

    /** A closed connection leaves its room and loses its alias; its sender,
        the room names, the room ids and the counter stay. */
    method OnClose(id: Token)
      requires Valid()
      modifies this
      ensures inRoom == old(inRoom) - {id}
      ensures rooms == Leave(old(rooms), old(inRoom), id) && rooms.Keys == old(rooms).Keys
      ensures alias == old(alias) - {id}
      ensures senders == old(senders) && names == old(names) && toGenerate == old(toGenerate)
      ensures Valid() && (old(Coherent()) ==> Coherent())
    {
      if id in inRoom {
        var room := inRoom[id];
        rooms := rooms[room := rooms[room] - {id}];
        inRoom := inRoom - {id};
      }
      alias := alias - {id};
    }

    /** Routes a frame from client `id` by its first character. */
    method OnMessage(id: Token, msg: WsMessage)
      requires Valid()
      modifies this
      ensures RouteOf(msg) == Ignore ==>
                && senders == old(senders) && names == old(names) && inRoom == old(inRoom)
                && alias == old(alias) && rooms == old(rooms) && toGenerate == old(toGenerate)
      ensures RouteOf(msg) == JoinRoute ==>
                && (msg.text in old(names) ==> names == old(names) && toGenerate == old(toGenerate))
                && (msg.text !in old(names) ==>
                      && names == old(names)[msg.text := old(toGenerate)]
                      && toGenerate == old(toGenerate) + 1)
                && alias == old(alias)
      ensures RouteOf(msg) == JoinRoute ==>
                var target := JoinTarget(old(names), old(toGenerate), msg.text);
                var registered := if msg.text in old(names) then old(rooms) else old(rooms)[old(toGenerate) := {}];
                if id in old(inRoom) && old(inRoom)[id] == target then
                  inRoom == old(inRoom) && rooms == registered
                else
                  && inRoom == old(inRoom)[id := target]
                  && rooms == Enter(Leave(registered, old(inRoom), id), target, id)
      ensures RouteOf(msg) == AliasRoute ==>
                && alias == old(alias)[id := msg.text]
                && names == old(names) && inRoom == old(inRoom) && rooms == old(rooms)
                && toGenerate == old(toGenerate)
      ensures RouteOf(msg) == SendRoute ==>
                && names == old(names) && inRoom == old(inRoom) && rooms == old(rooms)
                && toGenerate == old(toGenerate)
                && (id !in old(inRoom) ==> alias == old(alias))
                && (id in old(inRoom) && id in old(alias) ==>
                      alias == old(alias)[id := old(alias)[id] + ":" + msg.text])
                && (id in old(inRoom) && id !in old(alias) ==> alias == old(alias))
      ensures senders == old(senders)
      ensures Valid()
    {
      match msg
      case Binary(_) =>
      case Text(x) =>
        if |x| > 0 && x[0] == '#' {
          var _ := JoinRoom(id, x);
        } else if |x| > 0 && x[0] == '@' {
          Alias(id, x);
        } else {
          var _, _ := SendMessage(id, x);
        }
    }
  }

  /** Two clients joining the same new room name end up in different rooms:
      the first is placed in room 1, the second in room 0, the id actually
      registered for the name. */
  method SplitJoin() returns (first: nat, second: nat)
    ensures first == 1 && second == 0
  {
    var s := new Server();
    var _ := s.JoinRoom(1, "#lobby");
    var _ := s.JoinRoom(2, "#lobby");
    first, second := s.inRoom[1], s.inRoom[2];
  }

  /** A client placed in the off-by-one room is silently dropped from it when
      the next room name is registered under that id. */
  method EvictedByNextRoom() returns (recorded: bool, member: bool)
    ensures recorded && !member
  {
    var s := new Server();
    var _ := s.JoinRoom(1, "#a");
    var _ := s.JoinRoom(2, "#b");
    recorded := 1 in s.inRoom;
    member := recorded && 1 in s.rooms[s.inRoom[1]];
  }

  /** With the intended `generate_room`, both joiners of a name share its room. */
  method SharedJoin() returns (first: nat, second: nat)
    ensures first == 0 && second == 0
  {
    var s := new Server();
    var _ := s.JoinRoomIntended(1, "#lobby");
    var _ := s.JoinRoomIntended(2, "#lobby");
    first, second := s.inRoom[1], s.inRoom[2];
  }
}
