/** The message envelope of src/messages.rs: the flags carried by a message's
    first byte, the mapping from a 4-bit id to a message type, the routing of
    game-message types to their body parsers, and the `handle_message` entry
    point. */
module Envelope {
  import Wire
  import Bodies

  datatype MessageType =
    | Login | EnterRoom | Ping | Info | MalformedMessage | FailedLogin | BadConnection
    | UpdateCell | Move | Status | Replay | Map | MissingData | Cheating | Internal

  /** The control family, chosen when the `meta` flag is set. */
  predicate IsControl(t: MessageType) {
    t.Login? || t.EnterRoom? || t.Ping? || t.Info?
  }

  /** The game family, chosen when the `meta` flag is clear. */
  predicate IsGame(t: MessageType) {
    t.UpdateCell? || t.Move? || t.Status? || t.Replay?
  }

  datatype MetaData = MetaData(info: bool, error: bool, meta: bool, fromServer: bool)

  /** Why a message was refused; the source's human-readable texts are not
      modelled, only which check refused the message. */
  datatype Reason = FromServerBitSet | MetaFieldSet

  datatype Error = Error(reason: Reason, code: MessageType)

  datatype Result<+T> = Ok(value: T) | Err(error: Error)

  // ---------------------------------------------------------------------
  // Flags of the first byte (meta_from_byte)
  // ---------------------------------------------------------------------

  /** The flags as the source computes them: each is `first & mask == 1`.
      Every mask is a single bit other than 0x01, so the masked byte is never
      1 and no flag is ever set. */
  function MetaFromByte(first: Wire.byte): (m: MetaData)
    ensures !m.meta && !m.error && !m.info && !m.fromServer
  {
    var b := first as bv8;
    MetaData(
      info := b & 0x20 == 1,
      error := b & 0x40 == 1,
      meta := b & 0x80 == 1,
      fromServer := b & 0x10 == 1)
  }

  /** A byte with the 0x80 bit set still reports `meta` as clear. */
  lemma MetaBitLost()
    ensures (0x80 as bv8) & 0x80 != 0
    ensures !MetaFromByte(0x80).meta
  {
  }

  /** Bit `k` of a byte, by arithmetic. */
  function Bit(b: Wire.byte, k: nat): bool
    requires k < 8
  {
    (b / Pow2(k)) % 2 == 1
  }

  function Pow2(k: nat): (p: nat)
    ensures p >= 1
  {
    if k == 0 then 1 else 2 * Pow2(k - 1)
  }

  /** The flags as evidently intended: each is `first & mask != 0`. */
  function MetaFromByteFixed(first: Wire.byte): (m: MetaData)
    ensures m.meta <==> Bit(first, 7)
    ensures m.error <==> Bit(first, 6)
    ensures m.info <==> Bit(first, 5)
    ensures m.fromServer <==> Bit(first, 4)
  {
    var b := first as bv8;
    MetaData(
      info := b & 0x20 != 0,
      error := b & 0x40 != 0,
      meta := b & 0x80 != 0,
      fromServer := b & 0x10 != 0)
  }

  // ---------------------------------------------------------------------
  // Message type (parse_message_type)
  // ---------------------------------------------------------------------

  /** The 4-bit id of a control or game type: its position in its family. */
  function TypeId(t: MessageType): Wire.byte
    requires IsControl(t) || IsGame(t)
  {
    match t
    case Login => 1
    case UpdateCell => 1
    case EnterRoom => 2
    case Move => 2
    case Ping => 3
    case Status => 3
    case Info => 4
    case Replay => 4
  }

  /** Ids 1 to 4 name a control type when `meta` is set and a game type
      otherwise; every other id names nothing. */
  function ParseMessageType(meta: MetaData, id: Wire.byte): (r: Wire.Option<MessageType>)
    ensures r.Some? <==> 1 <= id <= 4
    ensures r.Some? ==> (if meta.meta then IsControl(r.value) else IsGame(r.value))
    ensures r.Some? ==> TypeId(r.value) == id
  {
    if meta.meta then
      match id
      case 1 => Wire.Some(Login)
      case 2 => Wire.Some(EnterRoom)
      case 3 => Wire.Some(Ping)
      case 4 => Wire.Some(Info)
      case _ => Wire.None
    else
      match id
      case 1 => Wire.Some(UpdateCell)
      case 2 => Wire.Some(Move)
      case 3 => Wire.Some(Status)
      case 4 => Wire.Some(Replay)
      case _ => Wire.None
  }

  /** Every type of the family `meta` selects is named by its own id. */
  lemma ParseMessageTypeOfId(meta: MetaData, t: MessageType)
    requires if meta.meta then IsControl(t) else IsGame(t)
    ensures ParseMessageType(meta, TypeId(t)) == Wire.Some(t)
  {
  }

  /** Within one family, different ids give different types. */
  lemma MessageTypeInjective(meta: MetaData, i: Wire.byte, j: Wire.byte)
    requires ParseMessageType(meta, i).Some?
    requires ParseMessageType(meta, i) == ParseMessageType(meta, j)
    ensures i == j
  {
  }

  // ---------------------------------------------------------------------
  // Game-message routing (parse_GameMessage)
  // ---------------------------------------------------------------------

  /** The body parser chosen for `typ` never reaches a division by a zero
      width. */
  predicate GameBodySafe(typ: MessageType, data: seq<Wire.byte>) {
    match typ
    case UpdateCell => Bodies.UpdateSafe(data)
    case Move => Bodies.MoveSafe(data)
    case Replay => Bodies.ReplaySafe(data)
    case _ => true
  }

  /** Routes a game-message type to its body parser. Only UpdateCell, Move
      and Replay have one; every other type, Status included, gives `None`. */
  function ParseGameMessage(typ: MessageType, data: seq<Wire.byte>): (r: Wire.Option<Bodies.GameMessage>)
    requires GameBodySafe(typ, data)
    ensures r.Some? ==>
              || (typ.UpdateCell? && r.value.Update?)
              || (typ.Move? && r.value.MoveMessage?)
              || (typ.Replay? && r.value.Replay?)
    ensures typ.UpdateCell? ==> r == Bodies.DecodeUpdate(data)
    ensures typ.Move? ==> r == Bodies.ParseMove(data)
    ensures typ.Replay? ==> r == Bodies.DecodeReplay(data)
  {
    match typ
    case UpdateCell => Bodies.DecodeUpdate(data)
    case Move => Bodies.ParseMove(data)
    case Replay => Bodies.DecodeReplay(data)
    case _ => Wire.None
  }

  /** An update for player 3 on a board of width 5 with the single cell
      (2, 1) set to 7: the cell's index is 1 * 5 + 2 = 7. */
  lemma UpdateExample()
    ensures ParseMessageType(MetaFromByte(0x01), 0x01) == Wire.Some(UpdateCell)
    ensures ParseGameMessage(UpdateCell, [3, 5, 7, 7]) ==
            Wire.Some(Bodies.Update(3, 5, [Wire.Point(2, 1)], [7]))
  {
    var data: seq<Wire.byte> := [3, 5, 7, 7];
    var body: seq<Wire.byte> := [7, 7];
    assert data[2..] == body && data[0] == 3 && data[1] == 5;
    assert Wire.ParsePointFrom(7, [7], 5) == Wire.Some((Wire.Point(2, 1), [7]));
    assert Wire.ParseUnbounded([7]) == Wire.Some((7, []));
    assert Bodies.UpdateCells([], 5) == Wire.Some(([], []));
    assert Bodies.UpdateCells(body, 5) ==
           Bodies.Prepend([Wire.Point(2, 1)], [7], Bodies.UpdateCells([], 5));
    var cells: seq<Wire.Point>, values: seq<nat> := [Wire.Point(2, 1)], [7];
    assert cells + [] == cells && values + [] == values;
    assert Bodies.UpdateCells(body, 5) == Wire.Some((cells, values));
    assert Bodies.DecodeUpdate(data) == Wire.Some(Bodies.Update(3, 5, [Wire.Point(2, 1)], [7]));
  }

  // ---------------------------------------------------------------------
  // Entry point (handle_message)
  // ---------------------------------------------------------------------

  /** The checks `handle_message` makes on the flags: a message from the
      server side, or one with `meta` set, is malformed. */
  function ScreenFlags(meta: MetaData): (r: Result<()>)
    ensures r.Ok? <==> !meta.fromServer && !meta.meta
    ensures r.Err? ==> r.error.code == MalformedMessage
    ensures meta.fromServer ==> r.Err? && r.error.reason == FromServerBitSet
  {
    if meta.fromServer then Err(Error(FromServerBitSet, MalformedMessage))
    else if meta.meta then Err(Error(MetaFieldSet, MalformedMessage))
    else Ok(())
  }

  /** The entry point as written: it ignores `data`, screens the constant
      first byte 0x4F, and therefore always succeeds. */
  function HandleMessage(data: seq<Wire.byte>): (r: Result<()>)
    ensures r == Ok(())
  {
    ScreenFlags(MetaFromByte(0x4F))
  }

  /** With the intended flag test the constant 0x4F still passes: it has
      neither the 0x80 nor the 0x10 bit. */
  lemma HandleMessageFixedFlags()
    ensures ScreenFlags(MetaFromByteFixed(0x4F)) == Ok(())
  {
    assert !Bit(0x4F, 7) && !Bit(0x4F, 4);
  }

  /** With the intended flag test, any first byte with the 0x10 bit set is
      refused as malformed, whatever else it carries. */
  lemma FromServerRejected(first: Wire.byte)
    requires Bit(first, 4)
    ensures ScreenFlags(MetaFromByteFixed(first)) == Err(Error(FromServerBitSet, MalformedMessage))
  {
  }
}
