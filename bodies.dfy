/** The three game-message bodies of src/messages.rs: a batch of cell updates,
    a single move, and a replay of moves with idle-turn skips.

    The two repeating bodies are read until the input is exhausted; the
    source runs them as loops that push onto two vectors, modelled here by
    the methods `ParseUpdate` and `ParseReplay`, each proved equal to a
    recursive specification (`DecodeUpdate`, `DecodeReplay`). */
module Bodies {
  import opened Wire

  datatype GameMessage =
    | Update(player: byte, width: nat, points: seq<Point>, values: seq<nat>)
    | MoveMessage(width: nat, mv: Move)
    | Replay(player: byte, width: nat, moves: seq<Move>, skips: seq<nat>)

  /** Puts already decoded pairs in front of the outcome of decoding the rest. */
  function Prepend<A, B>(xs: seq<A>, ys: seq<B>, o: Option<(seq<A>, seq<B>)>): Option<(seq<A>, seq<B>)> {
    match o
    case None => None
    case Some((a, b)) => Some((xs + a, ys + b))
  }

  lemma PrependNothing<A, B>(o: Option<(seq<A>, seq<B>)>)
    ensures Prepend([], [], o) == o
  {
    match o
    case None =>
    case Some((a, b)) => assert [] + a == a && [] + b == b;
  }

  lemma PrependTwice<A, B>(xs: seq<A>, ys: seq<B>, xs': seq<A>, ys': seq<B>, o: Option<(seq<A>, seq<B>)>)
    ensures Prepend(xs, ys, Prepend(xs', ys', o)) == Prepend(xs + xs', ys + ys', o)
  {
    match o
    case None =>
    case Some((a, b)) =>
      assert xs + (xs' + a) == (xs + xs') + a;
      assert ys + (ys' + b) == (ys + ys') + b;
  }

  lemma Assoc(a: seq<byte>, b: seq<byte>, c: seq<byte>)
    ensures a + b + c == a + (b + c)
  {
  }

  lemma Regroup(a: seq<byte>, b: seq<byte>, c: seq<byte>, d: seq<byte>)
    ensures (a + b + c) + d == a + (b + (c + d))
    ensures (a + b + c) + d == a + b + (c + d)
  {
  }

  // ---------------------------------------------------------------------
  // Update body (parse_update)
  // ---------------------------------------------------------------------

  /** The body never reaches the division by a zero width: with width 0 the
      source panics as soon as the first cell index decodes. */
  predicate CellsSafe(body: seq<byte>, width: nat) {
    width > 0 || body == [] || ParseUnbounded(body).None?
  }

  /** The (point, value) pairs of an update body, read until the input is
      exhausted; a pair cut short makes the whole body fail. */
  function UpdateCells(body: seq<byte>, width: nat): (r: Option<(seq<Point>, seq<nat>)>)
    requires CellsSafe(body, width)
    ensures r.Some? ==> |r.value.0| == |r.value.1|
    ensures r.Some? ==> OnBoard(r.value.0, width)
    decreases |body|
  {
    if body == [] then Some(([], []))
    else match ParsePointFrom(body[0], body[1..], width)
      case None => None
      case Some((p, afterPoint)) =>
        match ParseUnbounded(afterPoint)
        case None => None
        case Some((v, after)) => Prepend([p], [v], UpdateCells(after, width))
  }

  predicate UpdateSafe(data: seq<byte>) {
    |data| < 2 || CellsSafe(data[2..], data[1])
  }

  /** An update message: player byte, width byte, then the cells. */
  function DecodeUpdate(data: seq<byte>): (r: Option<GameMessage>)
    requires UpdateSafe(data)
    ensures |data| < 2 ==> r == None
    ensures r.Some? ==>
              && r.value.Update?
              && r.value.player == data[0] && r.value.width == data[1]
              && |r.value.points| == |r.value.values|
              && OnBoard(r.value.points, r.value.width)
  {
    if |data| < 2 then None
    else match UpdateCells(data[2..], data[1])
      case None => None
      case Some((points, values)) => Some(Update(data[0], data[1], points, values))
  }

  /** The two header bytes are followed by the body proper. */
  lemma UpdateHeader(player: byte, width: byte, body: seq<byte>)
    requires CellsSafe(body, width)
    ensures UpdateSafe([player, width] + body)
    ensures DecodeUpdate([player, width] + body) ==
            match UpdateCells(body, width)
            case None => None
            case Some((points, values)) => Some(Update(player, width, points, values))
  {
    assert ([player, width] + body)[2..] == body;
  }

  /** The source's loop: read a first byte or stop, then one point and one
      value, pushing both; any missing field aborts the whole message. */
  method ParseUpdate(data: seq<byte>) returns (r: Option<GameMessage>)
    requires UpdateSafe(data)
    ensures r == DecodeUpdate(data)
  {
    if |data| < 2 {
      return None;
    }
    var player, width := data[0], data[1];
    var rest := data[2..];
    var points: seq<Point>, values: seq<nat> := [], [];
    PrependNothing(UpdateCells(rest, width));
    while rest != []
      invariant CellsSafe(rest, width)
      invariant UpdateCells(data[2..], width) == Prepend(points, values, UpdateCells(rest, width))
      decreases |rest|
    {
      var first := rest[0];
      var loc := ParsePointFrom(first, rest[1..], width);
      if loc.None? {
        assert UpdateCells(rest, width) == None;
        return None;
      }
      var value := ParseUnbounded(loc.value.1);
      if value.None? {
        assert UpdateCells(rest, width) == None;
        return None;
      }
      assert UpdateCells(rest, width) == Prepend([loc.value.0], [value.value.0], UpdateCells(value.value.1, width));
      PrependTwice(points, values, [loc.value.0], [value.value.0], UpdateCells(value.value.1, width));
      points := points + [loc.value.0];
      values := values + [value.value.0];
      rest := value.value.1;
    }
    assert UpdateCells(rest, width) == Some(([], []));
    assert points + [] == points && values + [] == values;
    r := Some(Update(player, width, points, values));
  }

  /** The encoding of a sequence of cells, pair after pair. */
  function EncodeCells(points: seq<Point>, values: seq<nat>, width: nat): seq<byte>
    requires |points| == |values|
  {
    if points == [] then []
    else EncodePoint(points[0], width) + Encode(values[0]) + EncodeCells(points[1..], values[1..], width)
  }

  ghost predicate OnBoard(points: seq<Point>, width: nat) {
    forall i :: 0 <= i < |points| ==> points[i].x < width
  }

  /** A body whose first cell decodes continues with the cells after it. */
  lemma CellsFirst(body: seq<byte>, width: nat, p: Point, afterPoint: seq<byte>, v: nat, later: seq<byte>)
    requires width > 0
    requires ParsePoint(body, width) == Some((p, afterPoint))
    requires ParseUnbounded(afterPoint) == Some((v, later))
    ensures UpdateCells(body, width) == Prepend([p], [v], UpdateCells(later, width))
  {
  }

  /** A body whose first cell does not decode gives nothing. */
  lemma CellsFirstFails(body: seq<byte>, width: nat)
    requires width > 0 && body != []
    requires ParsePoint(body, width).None? || ParseUnbounded(ParsePoint(body, width).value.1).None?
    ensures UpdateCells(body, width) == None
  {
  }

  /** One encoded cell in front of a body is decoded first. */
  lemma CellsStep(p: Point, v: nat, width: nat, later: seq<byte>)
    requires width > 0 && p.x < width
    ensures UpdateCells(EncodePoint(p, width) + Encode(v) + later, width) ==
            Prepend([p], [v], UpdateCells(later, width))
  {
    var body := EncodePoint(p, width) + Encode(v) + later;
    assert body == EncodePoint(p, width) + (Encode(v) + later);
    PointRoundTrip(p, width, Encode(v) + later);
    UnboundedRoundTrip(v, later);
    CellsFirst(body, width, p, Encode(v) + later, v, later);
  }

  /** Encoded cells in front of any body decode to themselves, followed by
      whatever the rest of the body decodes to. */
  lemma {:induction false} CellsAppend(points: seq<Point>, values: seq<nat>, width: nat, tail: seq<byte>)
    requires width > 0 && |points| == |values| && OnBoard(points, width)
    ensures UpdateCells(EncodeCells(points, values, width) + tail, width) ==
            Prepend(points, values, UpdateCells(tail, width))
    decreases |points|
  {
    if points == [] {
      assert EncodeCells(points, values, width) + tail == tail;
      PrependNothing(UpdateCells(tail, width));
    } else {
      var p, v := points[0], values[0];
      var rest := EncodeCells(points[1..], values[1..], width);
      var later := rest + tail;
      assert UpdateCells(EncodeCells(points, values, width) + tail, width) ==
             Prepend([p], [v], UpdateCells(later, width)) by {
        assert EncodeCells(points, values, width) == EncodePoint(p, width) + Encode(v) + rest;
        Regroup(EncodePoint(p, width), Encode(v), rest, tail);
        CellsStep(p, v, width, later);
      }
      assert UpdateCells(later, width) == Prepend(points[1..], values[1..], UpdateCells(tail, width)) by {
        CellsAppend(points[1..], values[1..], width, tail);
      }
      PrependTwice([p], [v], points[1..], values[1..], UpdateCells(tail, width));
      assert [p] + points[1..] == points && [v] + values[1..] == values;
    }
  }

  /** Round trip of an update message. */
  lemma UpdateRoundTrip(player: byte, width: byte, points: seq<Point>, values: seq<nat>)
    requires width > 0 && |points| == |values| && OnBoard(points, width)
    ensures DecodeUpdate([player, width] + EncodeCells(points, values, width)) ==
            Some(Update(player, width, points, values))
  {
    var body := EncodeCells(points, values, width);
    assert UpdateCells(body, width) == Some((points, values)) by {
      CellsAppend(points, values, width, []);
      assert body + [] == body;
      assert points + [] == points && values + [] == values;
    }
    UpdateHeader(player, width, body);
  }

  /** With an empty body an update carries no cells, whatever its width. */
  lemma UpdateEmptyBody(player: byte, width: byte)
    ensures DecodeUpdate([player, width]) == Some(Update(player, width, [], []))
  {
    assert [player, width][2..] == [];
  }

  /** A cell cut short anywhere does not decode. */
  lemma CellTruncated(p: Point, v: nat, width: nat, cut: nat)
    requires width > 0 && p.x < width
    requires 0 < cut < |EncodePoint(p, width) + Encode(v)|
    ensures UpdateCells((EncodePoint(p, width) + Encode(v))[..cut], width) == None
  {
    var ep := EncodePoint(p, width);
    var ev := Encode(v);
    var t := (ep + ev)[..cut];
    if cut < |ep| {
      assert t == ep[..cut];
      UnboundedTruncated(PointIndex(p, width), t);
      CellsFirstFails(t, width);
    } else {
      var t' := ev[..cut - |ep|];
      assert t == ep + t';
      PointRoundTrip(p, width, t');
      UnboundedTruncated(v, t');
      CellsFirstFails(t, width);
    }
  }

  /** Complete cells followed by a cell cut short anywhere give no message at
      all: there is no partial result. */
  lemma UpdateTruncated(player: byte, width: byte, points: seq<Point>, values: seq<nat>,
                        p: Point, v: nat, cut: nat)
    requires width > 0 && |points| == |values| && OnBoard(points, width) && p.x < width
    requires 0 < cut < |EncodePoint(p, width) + Encode(v)|
    ensures DecodeUpdate([player, width] + EncodeCells(points, values, width) +
                         (EncodePoint(p, width) + Encode(v))[..cut]) == None
  {
    var t := (EncodePoint(p, width) + Encode(v))[..cut];
    var body := EncodeCells(points, values, width) + t;
    CellTruncated(p, v, width, cut);
    CellsAppend(points, values, width, t);
    UpdateHeader(player, width, body);
    Assoc([player, width], EncodeCells(points, values, width), t);
  }

  // ---------------------------------------------------------------------
  // Move body (parse_move)
  // ---------------------------------------------------------------------

  /** The move never reaches the division by a zero width. */
  predicate MoveSafe(data: seq<byte>) {
    data == [] || data[0] > 0 || ParseUnbounded(data[1..]).None?
  }

  /** A move message: one width byte, then one move; later bytes are ignored. */
  function ParseMove(data: seq<byte>): (r: Option<GameMessage>)
    requires MoveSafe(data)
    ensures r.Some? ==>
              && r.value.MoveMessage?
              && |data| >= 4
              && r.value.width == data[0]
              && r.value.mv.point.x < r.value.width
    ensures r.Some? <==> data != [] && ParseMoveFields(data[1..], data[0]).Some?
    ensures r.Some? ==> r.value.mv == ParseMoveFields(data[1..], data[0]).value.0
  {
    if data == [] then None
    else
      var width := data[0];
      match ParseMoveFields(data[1..], width)
      case None => None
      case Some((mv, _)) => Some(MoveMessage(width, mv))
  }

  /** Round trip of a move message, whatever follows it. */
  lemma MoveMessageRoundTrip(width: byte, m: Move, trailing: seq<byte>)
    requires width > 0 && m.point.x < width
    ensures ParseMove([width] + EncodeMove(m, width) + trailing) == Some(MoveMessage(width, m))
  {
    var data := [width] + EncodeMove(m, width) + trailing;
    assert data[1..] == EncodeMove(m, width) + trailing;
    MoveRoundTrip(m, width, trailing);
  }

  /** A move message cut short anywhere after its width gives nothing. */
  lemma MoveMessageTruncated(width: byte, m: Move, cut: nat)
    requires width > 0 && m.point.x < width
    requires cut < |EncodeMove(m, width)|
    ensures ParseMove([width] + EncodeMove(m, width)[..cut]) == None
  {
    var t := EncodeMove(m, width)[..cut];
    assert ([width] + t)[1..] == t;
    MoveTruncated(m, width, t);
  }

  /** Trailing bytes after a decodable move message are ignored. */
  lemma MoveIgnoresTrailing(data: seq<byte>, trailing: seq<byte>)
    requires MoveSafe(data) && ParseMove(data).Some?
    ensures MoveSafe(data + trailing)
    ensures ParseMove(data + trailing) == ParseMove(data)
  {
    assert (data + trailing)[1..] == data[1..] + trailing;
    MoveExtend(data[1..], data[0], trailing);
  }

  // ---------------------------------------------------------------------
  // Replay body (parse_replay)
  // ---------------------------------------------------------------------

  /** The body never reaches the division by a zero width: with width 0 the
      source panics once the first skip and the first point index decode. */
  predicate EntriesSafe(body: seq<byte>, width: nat) {
    width > 0 || body == [] ||
      match ParseUnboundedFrom(body[0], body[1..])
      case None => true
      case Some((_, after)) => ParseUnbounded(after).None?
  }

  /** The (skip, move) pairs of a replay body, read until the input is
      exhausted; a pair cut short makes the whole body fail. The result holds
      the moves first and the skips second, as the source's message does. */
  function ReplayEntries(body: seq<byte>, width: nat): (r: Option<(seq<Move>, seq<nat>)>)
    requires EntriesSafe(body, width)
    ensures r.Some? ==> |r.value.0| == |r.value.1|
    ensures r.Some? ==> MovesOnBoard(r.value.0, width)
    decreases |body|
  {
    if body == [] then Some(([], []))
    else match ParseUnboundedFrom(body[0], body[1..])
      case None => None
      case Some((skip, afterSkip)) =>
        match ParseMoveFields(afterSkip, width)
        case None => None
        case Some((mv, after)) => Prepend([mv], [skip], ReplayEntries(after, width))
  }

  predicate ReplaySafe(data: seq<byte>) {
    |data| < 2 || EntriesSafe(data[2..], data[1])
  }

  /** A replay message: player byte, width byte, then the entries. */
  function DecodeReplay(data: seq<byte>): (r: Option<GameMessage>)
    requires ReplaySafe(data)
    ensures |data| < 2 ==> r == None
    ensures r.Some? ==>
              && r.value.Replay?
              && r.value.player == data[0] && r.value.width == data[1]
              && |r.value.moves| == |r.value.skips|
              && MovesOnBoard(r.value.moves, r.value.width)
  {
    if |data| < 2 then None
    else match ReplayEntries(data[2..], data[1])
      case None => None
      case Some((moves, skips)) => Some(Replay(data[0], data[1], moves, skips))
  }

  /** The two header bytes are followed by the body proper. */
  lemma ReplayHeader(player: byte, width: byte, body: seq<byte>)
    requires EntriesSafe(body, width)
    ensures ReplaySafe([player, width] + body)
    ensures DecodeReplay([player, width] + body) ==
            match ReplayEntries(body, width)
            case None => None
            case Some((moves, skips)) => Some(Replay(player, width, moves, skips))
  {
    assert ([player, width] + body)[2..] == body;
  }

  /** The source's loop: read a first byte or stop, then one skip and one
      move, pushing both; any missing field aborts the whole message. */
  method ParseReplay(data: seq<byte>) returns (r: Option<GameMessage>)
    requires ReplaySafe(data)
    ensures r == DecodeReplay(data)
  {
    if |data| < 2 {
      return None;
    }
    var player, width := data[0], data[1];
    var rest := data[2..];
    var moves: seq<Move>, skips: seq<nat> := [], [];
    PrependNothing(ReplayEntries(rest, width));
    while rest != []
      invariant EntriesSafe(rest, width)
      invariant ReplayEntries(data[2..], width) == Prepend(moves, skips, ReplayEntries(rest, width))
      decreases |rest|
    {
      var first := rest[0];
      var skip := ParseUnboundedFrom(first, rest[1..]);
      if skip.None? {
        assert ReplayEntries(rest, width) == None;
        return None;
      }
      var mov := ParseMoveFields(skip.value.1, width);
      if mov.None? {
        assert ReplayEntries(rest, width) == None;
        return None;
      }
      assert ReplayEntries(rest, width) == Prepend([mov.value.0], [skip.value.0], ReplayEntries(mov.value.1, width));
      PrependTwice(moves, skips, [mov.value.0], [skip.value.0], ReplayEntries(mov.value.1, width));
      skips := skips + [skip.value.0];
      moves := moves + [mov.value.0];
      rest := mov.value.1;
    }
    assert ReplayEntries(rest, width) == Some(([], []));
    assert moves + [] == moves && skips + [] == skips;
    r := Some(Replay(player, width, moves, skips));
  }

  /** The encoding of a sequence of replay entries, skip before move. */
  function EncodeEntries(moves: seq<Move>, skips: seq<nat>, width: nat): seq<byte>
    requires |moves| == |skips|
  {
    if moves == [] then []
    else Encode(skips[0]) + EncodeMove(moves[0], width) + EncodeEntries(moves[1..], skips[1..], width)
  }

  ghost predicate MovesOnBoard(moves: seq<Move>, width: nat) {
    forall i :: 0 <= i < |moves| ==> moves[i].point.x < width
  }

  /** A body whose first entry decodes continues with the entries after it. */
  lemma EntriesFirst(body: seq<byte>, width: nat, k: nat, afterSkip: seq<byte>, m: Move, later: seq<byte>)
    requires width > 0
    requires ParseUnbounded(body) == Some((k, afterSkip))
    requires ParseMoveFields(afterSkip, width) == Some((m, later))
    ensures ReplayEntries(body, width) == Prepend([m], [k], ReplayEntries(later, width))
  {
  }

  /** A body whose first entry does not decode gives nothing. */
  lemma EntriesFirstFails(body: seq<byte>, width: nat)
    requires width > 0 && body != []
    requires ParseUnbounded(body).None? || ParseMoveFields(ParseUnbounded(body).value.1, width).None?
    ensures ReplayEntries(body, width) == None
  {
  }

  /** One encoded entry in front of a body is decoded first. */
  lemma EntriesStep(m: Move, k: nat, width: nat, later: seq<byte>)
    requires width > 0 && m.point.x < width
    ensures ReplayEntries(Encode(k) + (EncodeMove(m, width) + later), width) ==
            Prepend([m], [k], ReplayEntries(later, width))
  {
    var afterSkip := EncodeMove(m, width) + later;
    UnboundedRoundTrip(k, afterSkip);
    MoveRoundTrip(m, width, later);
    EntriesFirst(Encode(k) + afterSkip, width, k, afterSkip, m, later);
  }

  /** Encoded entries in front of any body decode to themselves, followed by
      whatever the rest of the body decodes to. */
  lemma {:induction false} EntriesAppend(moves: seq<Move>, skips: seq<nat>, width: nat, tail: seq<byte>)
    requires width > 0 && |moves| == |skips| && MovesOnBoard(moves, width)
    ensures ReplayEntries(EncodeEntries(moves, skips, width) + tail, width) ==
            Prepend(moves, skips, ReplayEntries(tail, width))
    decreases |moves|
  {
    if moves == [] {
      assert EncodeEntries(moves, skips, width) + tail == tail;
      PrependNothing(ReplayEntries(tail, width));
    } else {
      var m, k := moves[0], skips[0];
      var rest := EncodeEntries(moves[1..], skips[1..], width);
      var later := rest + tail;
      assert ReplayEntries(EncodeEntries(moves, skips, width) + tail, width) ==
             Prepend([m], [k], ReplayEntries(later, width)) by {
        assert EncodeEntries(moves, skips, width) == Encode(k) + EncodeMove(m, width) + rest;
        Regroup(Encode(k), EncodeMove(m, width), rest, tail);
        EntriesStep(m, k, width, later);
      }
      assert ReplayEntries(later, width) == Prepend(moves[1..], skips[1..], ReplayEntries(tail, width)) by {
        EntriesAppend(moves[1..], skips[1..], width, tail);
      }
      PrependTwice([m], [k], moves[1..], skips[1..], ReplayEntries(tail, width));
      assert [m] + moves[1..] == moves && [k] + skips[1..] == skips;
    }
  }

  /** Round trip of a replay message. */
  lemma ReplayRoundTrip(player: byte, width: byte, moves: seq<Move>, skips: seq<nat>)
    requires width > 0 && |moves| == |skips| && MovesOnBoard(moves, width)
    ensures DecodeReplay([player, width] + EncodeEntries(moves, skips, width)) ==
            Some(Replay(player, width, moves, skips))
  {
    var body := EncodeEntries(moves, skips, width);
    assert ReplayEntries(body, width) == Some((moves, skips)) by {
      EntriesAppend(moves, skips, width, []);
      assert body + [] == body;
      assert moves + [] == moves && skips + [] == skips;
    }
    ReplayHeader(player, width, body);
  }

  /** With an empty body a replay carries no entries, whatever its width. */
  lemma ReplayEmptyBody(player: byte, width: byte)
    ensures DecodeReplay([player, width]) == Some(Replay(player, width, [], []))
  {
    assert [player, width][2..] == [];
  }

  /** An entry cut short anywhere does not decode. */
  lemma EntryTruncated(m: Move, k: nat, width: nat, cut: nat)
    requires width > 0 && m.point.x < width
    requires 0 < cut < |Encode(k) + EncodeMove(m, width)|
    ensures ReplayEntries((Encode(k) + EncodeMove(m, width))[..cut], width) == None
  {
    var ek := Encode(k);
    var em := EncodeMove(m, width);
    var t := (ek + em)[..cut];
    if cut < |ek| {
      assert t == ek[..cut];
      UnboundedTruncated(k, t);
      EntriesFirstFails(t, width);
    } else {
      var t' := em[..cut - |ek|];
      assert t == ek + t';
      UnboundedRoundTrip(k, t');
      MoveTruncated(m, width, t');
      EntriesFirstFails(t, width);
    }
  }

  /** Complete entries followed by an entry cut short anywhere give no
      message at all: there is no partial result. */
  lemma ReplayTruncated(player: byte, width: byte, moves: seq<Move>, skips: seq<nat>,
                        m: Move, k: nat, cut: nat)
    requires width > 0 && |moves| == |skips| && MovesOnBoard(moves, width) && m.point.x < width
    requires 0 < cut < |Encode(k) + EncodeMove(m, width)|
    ensures DecodeReplay([player, width] + EncodeEntries(moves, skips, width) +
                         (Encode(k) + EncodeMove(m, width))[..cut]) == None
  {
    var t := (Encode(k) + EncodeMove(m, width))[..cut];
    var body := EncodeEntries(moves, skips, width) + t;
    EntryTruncated(m, k, width, cut);
    EntriesAppend(moves, skips, width, t);
    ReplayHeader(player, width, body);
    Assoc([player, width], EncodeEntries(moves, skips, width), t);
  }
}
