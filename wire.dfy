/** Cursor parsers of the game's binary wire format (src/messages.rs): the
    sentinel-continued unbounded integer, grid positions and unit moves.

    The Rust code advances a byte iterator; here a cursor is the sequence of
    bytes not yet read, and every parser returns the decoded value together
    with the bytes it left unread, or `None` when the input runs out. */
module Wire {

  type byte = b: int | 0 <= b < 256

  /** The byte that announces one more base-256 digit (`u8::MAX`). */
  const Sentinel: byte := 0xFF

  /** Largest value of the source's `u32`, plus one. */
  const U32Limit: nat := 0x1_0000_0000

  datatype Option<+T> = None | Some(value: T)

  /** A board cell: column `x` and row `y`, relative to a board width. */
  datatype Point = Point(x: nat, y: nat)

  /** A unit move: the cell it starts from, an uninterpreted direction byte
      and the number of units moved. */
  datatype Move = Move(point: Point, direction: byte, units: nat)

  /** `rest` is what remains of `s` after some bytes were read from its front. */
  predicate IsSuffix(rest: seq<byte>, s: seq<byte>) {
    |rest| <= |s| && rest == s[|s| - |rest|..]
  }

  // ---------------------------------------------------------------------
  // Unbounded integer (parse_unbounded / parse_unbounded_private)
  // ---------------------------------------------------------------------

  /** Reads one unbounded integer from the front of `s`. */
  function ParseUnbounded(s: seq<byte>): (r: Option<(nat, seq<byte>)>)
    ensures r.Some? ==> |r.value.1| < |s|
    decreases |s|, 1
  {
    if s == [] then None else ParseUnboundedFrom(s[0], s[1..])
  }

  /** Reads one unbounded integer whose first byte `first` has already been
      taken from the cursor; `rest` is the cursor after it. */
  function ParseUnboundedFrom(first: byte, rest: seq<byte>): (r: Option<(nat, seq<byte>)>)
    ensures r.Some? ==> |r.value.1| <= |rest|
    ensures first != Sentinel ==> r == Some((first, rest))
    decreases |rest| + 1, 0
  {
    if first == Sentinel then
      if rest == [] then None
      else match ParseUnbounded(rest[1..])
        case None => None
        case Some((m, after)) => Some((rest[0] + 256 * m, after))
    else
      Some((first, rest))
  }

  /** The shape of a complete encoding, stated without reference to the
      parser: an odd number of bytes, a sentinel at every even position
      except the last, and a final (most significant) digit below the
      sentinel. */
  ghost predicate IsChain(c: seq<byte>) {
    && |c| % 2 == 1
    && (forall j :: 0 <= j < |c| - 1 && j % 2 == 0 ==> c[j] == Sentinel)
    && c[|c| - 1] != Sentinel
  }

  /** The base-256 digits of a chain, least significant first: the byte after
      every sentinel, then the terminal byte. */
  ghost function Digits(c: seq<byte>): (ds: seq<byte>)
    ensures |ds| == (|c| + 1) / 2
    decreases |c|
  {
    if |c| <= 1 then c else [c[1]] + Digits(c[2..])
  }

  /** Little-endian base-256 value of a digit sequence. */
  ghost function FromDigits(ds: seq<byte>): nat
    decreases |ds|
  {
    if ds == [] then 0 else ds[0] + 256 * FromDigits(ds[1..])
  }

  ghost function ChainValue(c: seq<byte>): nat {
    FromDigits(Digits(c))
  }

  /** Peeling one `0xFF d` pair off a chain of more than one byte leaves a chain. */
  lemma ChainTail(c: seq<byte>)
    requires IsChain(c) && |c| > 1
    ensures |c| >= 3 && c[0] == Sentinel && IsChain(c[2..])
    ensures ChainValue(c) == c[1] + 256 * ChainValue(c[2..])
  {
    assert c[0] == Sentinel;
    var t := c[2..];
    forall j | 0 <= j < |t| - 1 && j % 2 == 0
      ensures t[j] == Sentinel
    {
      assert t[j] == c[j + 2];
    }
  }

  /** Prefixing a chain with a `0xFF d` pair gives a chain. */
  lemma ChainCons(d: byte, t: seq<byte>)
    requires IsChain(t)
    ensures IsChain([Sentinel, d] + t)
    ensures ChainValue([Sentinel, d] + t) == d + 256 * ChainValue(t)
  {
    var c := [Sentinel, d] + t;
    forall j | 0 <= j < |c| - 1 && j % 2 == 0
      ensures c[j] == Sentinel
    {
      if j >= 2 { assert c[j] == t[j - 2]; }
    }
    assert c[2..] == t;
  }

  /** A `0xFF d` pair in front of a decodable tail adds the digit `d` below
      the tail's value. */
  lemma ParseSentinelPair(d: byte, tail: seq<byte>, v: nat, rest: seq<byte>)
    requires ParseUnbounded(tail) == Some((v, rest))
    ensures ParseUnbounded([Sentinel, d] + tail) == Some((d + 256 * v, rest))
  {
    var s := [Sentinel, d] + tail;
    assert s[0] == Sentinel && s[1..][0] == d && s[1..][1..] == tail;
  }

  /** A one-byte chain is its own value and is read without looking further. */
  lemma ParseChainOne(c: seq<byte>, rest: seq<byte>)
    requires IsChain(c) && |c| == 1
    ensures ParseUnbounded(c + rest) == Some((ChainValue(c), rest))
  {
    assert ChainValue(c) == c[0] by {
      assert Digits(c) == c;
      assert FromDigits(c) == c[0] + 256 * FromDigits([]);
    }
    assert (c + rest)[0] == c[0] && (c + rest)[1..] == rest;
  }

  /** A chain longer than one byte starts with a `0xFF d` pair. */
  lemma SplitPair(c: seq<byte>, rest: seq<byte>)
    requires |c| >= 2 && c[0] == Sentinel
    ensures c + rest == [Sentinel, c[1]] + (c[2..] + rest)
  {
  }

  /** Completeness: a chain followed by anything decodes to the chain's value
      and leaves exactly what followed it. */
  lemma {:induction false} ParseChain(c: seq<byte>, rest: seq<byte>)
    requires IsChain(c)
    ensures ParseUnbounded(c + rest) == Some((ChainValue(c), rest))
    decreases |c|
  {
    if |c| == 1 {
      ParseChainOne(c, rest);
    } else {
      ChainTail(c);
      ParseChain(c[2..], rest);
      ParseSentinelPair(c[1], c[2..] + rest, ChainValue(c[2..]), rest);
      SplitPair(c, rest);
    }
  }

  /** Soundness: whatever a successful decode consumed is a chain, and the
      decoded value is that chain's value. In particular a successful decode
      consumes `2k+1` bytes, every even position but the last is `0xFF`, and
      the last byte consumed is below `0xFF`. */
  lemma {:induction false} ParseConsumesChain(s: seq<byte>)
    requires ParseUnbounded(s).Some?
    ensures var rest := ParseUnbounded(s).value.1;
            IsChain(s[..|s| - |rest|]) && ParseUnbounded(s).value.0 == ChainValue(s[..|s| - |rest|])
    decreases |s|
  {
    var rest := ParseUnbounded(s).value.1;
    var c := s[..|s| - |rest|];
    if s[0] != Sentinel {
      assert c == [s[0]];
      assert Digits(c) == c;
      assert FromDigits(c) == c[0] + 256 * FromDigits([]);
    } else {
      assert |s| >= 2;
      var inner := s[1..][1..];
      assert inner == s[2..];
      ParseConsumesChain(inner);
      var m := ParseUnbounded(inner).value.0;
      assert ParseUnbounded(inner).value.1 == rest;
      assert ParseUnbounded(s).value.0 == s[1] + 256 * m;
      var t := inner[..|inner| - |rest|];
      ChainCons(s[1], t);
      assert c == [Sentinel, s[1]] + t;
    }
  }

  /** A strict prefix of a chain never decodes: input that ends after a
      sentinel, after a digit, or before any byte gives `None`. */
  lemma {:induction false} ParseTruncatedChain(c: seq<byte>, t: seq<byte>)
    requires IsChain(c) && |t| < |c| && t == c[..|t|]
    ensures ParseUnbounded(t) == None
    decreases |c|
  {
    if |t| >= 2 {
      ChainTail(c);
      assert t[1..][1..] == c[2..][..|t| - 2];
      ParseTruncatedChain(c[2..], t[1..][1..]);
    }
  }

  /** The encoder the source lacks: a value below the sentinel is one byte;
      any other value is a sentinel, its low digit, then the encoding of the
      rest. */
  function Encode(v: nat): (e: seq<byte>)
    ensures |e| >= 1
    decreases v
  {
    if v < Sentinel then [v] else [Sentinel, v % 256] + Encode(v / 256)
  }

  /** Every encoding is a chain with the encoded value; in particular its
      terminal digit is always below `0xFF`, so every value round-trips. */
  lemma {:induction false} EncodeIsChain(v: nat)
    ensures IsChain(Encode(v)) && ChainValue(Encode(v)) == v
    decreases v
  {
    if v >= Sentinel {
      assert v == v % 256 + 256 * (v / 256);
      EncodeIsChain(v / 256);
      ChainCons(v % 256, Encode(v / 256));
    } else {
      assert Digits(Encode(v)) == [v];
      assert FromDigits([v]) == v + 256 * FromDigits([]);
    }
  }

  /** Round trip: every natural number, of any size, has an encoding that
      decodes back to it and leaves the following bytes untouched. */
  lemma UnboundedRoundTrip(v: nat, rest: seq<byte>)
    ensures ParseUnbounded(Encode(v) + rest) == Some((v, rest))
  {
    EncodeIsChain(v);
    ParseChain(Encode(v), rest);
  }

  /** Every strict prefix of an encoding fails to decode. */
  lemma UnboundedTruncated(v: nat, t: seq<byte>)
    requires |t| < |Encode(v)| && t == Encode(v)[..|t|]
    ensures ParseUnbounded(t) == None
  {
    EncodeIsChain(v);
    ParseTruncatedChain(Encode(v), t);
  }

  /** Decoding is not injective: a small value has a one-byte and a
      three-byte form. */
  lemma UnboundedNotInjective(b: byte)
    requires b < Sentinel
    ensures ParseUnbounded([b]) == Some((b, []))
    ensures ParseUnbounded([Sentinel, b, 0]) == Some((b, []))
  {
    assert [Sentinel, b, 0][1..][1..] == [0];
    assert ParseUnbounded([0]) == Some((0, []));
  }

  /** Appending bytes after a decodable prefix does not change what is
      decoded; the appended bytes are simply left unread. */
  lemma {:induction false} UnboundedExtend(s: seq<byte>, tail: seq<byte>)
    requires ParseUnbounded(s).Some?
    ensures ParseUnbounded(s + tail) ==
            Some((ParseUnbounded(s).value.0, ParseUnbounded(s).value.1 + tail))
  {
    ParseConsumesChain(s);
    UnboundedSuffix(s);
    var rest := ParseUnbounded(s).value.1;
    var c := s[..|s| - |rest|];
    assert s == c + rest;
    assert s + tail == c + (rest + tail);
    ParseChain(c, rest + tail);
  }

  /** A decode reads only from the front: what it leaves is a suffix of its input. */
  lemma {:induction false} UnboundedSuffix(s: seq<byte>)
    requires ParseUnbounded(s).Some?
    ensures IsSuffix(ParseUnbounded(s).value.1, s)
    decreases |s|
  {
    if s[0] == Sentinel {
      UnboundedSuffix(s[1..][1..]);
      assert s[1..][1..] == s[2..];
    }
  }

  /** Whether the source's `u32` arithmetic `d + 256 * m` stays in range at
      every continuation step of a successful decode (in a debug build it
      panics otherwise). */
  ghost predicate NoU32Overflow(s: seq<byte>)
    requires ParseUnbounded(s).Some?
    decreases |s|
  {
    if s[0] != Sentinel then true
    else
      |s| >= 2 &&
      match ParseUnbounded(s[1..][1..])
      case None => false
      case Some((m, _)) => m < U32Limit / 256 && NoU32Overflow(s[1..][1..])
  }

  /** The unbounded value is exactly what the source computes in `u32`:
      no step overflows if and only if the value fits in 32 bits. */
  lemma {:induction false} NoOverflowIffFits(s: seq<byte>)
    requires ParseUnbounded(s).Some?
    ensures NoU32Overflow(s) <==> ParseUnbounded(s).value.0 < U32Limit
    decreases |s|
  {
    if s[0] == Sentinel {
      var inner := s[1..][1..];
      NoOverflowIffFits(inner);
      var m := ParseUnbounded(inner).value.0;
      assert ParseUnbounded(s).value.0 == s[1] + 256 * m;
    }
  }

  // ---------------------------------------------------------------------
  // Grid position (parse_point / parse_point_private)
  // ---------------------------------------------------------------------

  /** Reads a point whose first index byte has already been taken. The source
      divides by `width` only once the index has been decoded, so a zero width
      is excluded exactly when the index decodes. */
  function ParsePointFrom(first: byte, rest: seq<byte>, width: nat): (r: Option<(Point, seq<byte>)>)
    requires width > 0 || ParseUnboundedFrom(first, rest).None?
    ensures r.Some? <==> ParseUnboundedFrom(first, rest).Some?
    ensures r.Some? ==>
              var index := ParseUnboundedFrom(first, rest).value.0;
              && r.value.1 == ParseUnboundedFrom(first, rest).value.1
              && r.value.0.x < width
              && r.value.0.y * width + r.value.0.x == index
  {
    match ParseUnboundedFrom(first, rest)
    case None => None
    case Some((num, after)) =>
      DivModSplit(num, width);
      Some((Point(num % width, num / width), after))
  }

  lemma DivModSplit(num: nat, width: nat)
    requires width > 0
    ensures num % width < width && (num / width) * width + num % width == num
  {
  }

  /** Reads a point: one unbounded index, split by the board width. */
  function ParsePoint(s: seq<byte>, width: nat): (r: Option<(Point, seq<byte>)>)
    requires width > 0 || ParseUnbounded(s).None?
    ensures r.Some? <==> ParseUnbounded(s).Some?
    ensures r.Some? ==>
              && r.value.1 == ParseUnbounded(s).value.1
              && r.value.0.x < width
              && r.value.0.y * width + r.value.0.x == ParseUnbounded(s).value.0
  {
    if s == [] then None else ParsePointFrom(s[0], s[1..], width)
  }

  /** Linear index of a cell on a board of the given width. */
  function PointIndex(p: Point, width: nat): nat {
    p.y * width + p.x
  }

  function EncodePoint(p: Point, width: nat): (e: seq<byte>)
    ensures |e| >= 1
  {
    Encode(PointIndex(p, width))
  }

  /** Column and row are recovered from the linear index. */
  lemma DivModIndex(x: nat, y: nat, width: nat)
    requires x < width
    ensures (y * width + x) % width == x && (y * width + x) / width == y
  {
    var i := y * width + x;
    var q, r := i / width, i % width;
    assert q * width + r == i;
    if q > y {
      var d := q - y;
      assert q * width == y * width + d * width;
      MulAtLeast(d, width);
    } else if q < y {
      var d := y - q;
      assert y * width == q * width + d * width;
      MulAtLeast(d, width);
    }
  }

  lemma MulAtLeast(d: nat, w: nat)
    requires d >= 1
    ensures d * w >= w
  {
    assert d * w == (d - 1) * w + w;
  }

  /** Round trip for points on a board of positive width. */
  lemma PointRoundTrip(p: Point, width: nat, rest: seq<byte>)
    requires p.x < width
    ensures ParsePoint(EncodePoint(p, width) + rest, width) == Some((p, rest))
  {
    UnboundedRoundTrip(PointIndex(p, width), rest);
    DivModIndex(p.x, p.y, width);
  }

  // ---------------------------------------------------------------------
  // Move (parse_move_private)
  // ---------------------------------------------------------------------

  /** Reads, in order, a point, exactly one direction byte and a unit count. */
  function ParseMoveFields(s: seq<byte>, width: nat): (r: Option<(Move, seq<byte>)>)
    requires width > 0 || ParseUnbounded(s).None?
    ensures r.Some? ==> width > 0 && |r.value.1| + 3 <= |s|
    ensures r.Some? ==> r.value.0.point.x < width
  {
    match ParsePoint(s, width)
    case None => None
    case Some((point, afterPoint)) =>
      if afterPoint == [] then None
      else
        var direction := afterPoint[0];
        match ParseUnbounded(afterPoint[1..])
        case None => None
        case Some((units, after)) => Some((Move(point, direction, units), after))
  }

  function EncodeMove(m: Move, width: nat): (e: seq<byte>)
    ensures |e| >= 3
  {
    EncodePoint(m.point, width) + [m.direction] + Encode(m.units)
  }

  /** Completeness for moves: a chain for the point, any direction byte and a
      chain for the units decode to that move, the point being the first
      chain's value split by the width, whatever follows. */
  lemma MoveFromChains(c1: seq<byte>, d: byte, c2: seq<byte>, rest: seq<byte>, width: nat)
    requires width > 0 && IsChain(c1) && IsChain(c2)
    ensures ParseMoveFields(c1 + [d] + c2 + rest, width) ==
            Some((Move(Point(ChainValue(c1) % width, ChainValue(c1) / width), d, ChainValue(c2)), rest))
  {
    var afterPoint := [d] + (c2 + rest);
    assert c1 + [d] + c2 + rest == c1 + afterPoint;
    ParseChain(c1, afterPoint);
    ParseChain(c2, rest);
    assert afterPoint[0] == d && afterPoint[1..] == c2 + rest;
  }

  /** A successful decode splits its input into the chain it consumed and the
      rest. */
  lemma ChainPrefix(s: seq<byte>)
    requires ParseUnbounded(s).Some?
    ensures var rest := ParseUnbounded(s).value.1;
            && |rest| < |s|
            && IsChain(s[..|s| - |rest|])
            && ChainValue(s[..|s| - |rest|]) == ParseUnbounded(s).value.0
            && s == s[..|s| - |rest|] + rest
  {
    ParseConsumesChain(s);
    UnboundedSuffix(s);
  }

  /** `s` is a chain `c1` for the point, the direction byte, a chain `c2` for
      the units, and then `rest`. */
  ghost predicate MoveLayout(s: seq<byte>, c1: seq<byte>, c2: seq<byte>, m: Move, rest: seq<byte>, width: nat) {
    && IsChain(c1) && IsChain(c2)
    && s == c1 + [m.direction] + c2 + rest
    && ChainValue(c1) == PointIndex(m.point, width)
    && ChainValue(c2) == m.units
  }

  /** The steps a decoded move took: the index, the direction byte right
      after it, then the unit count. */
  lemma MoveFieldsSteps(s: seq<byte>, width: nat)
    requires width > 0 && ParseMoveFields(s, width).Some?
    ensures var m := ParseMoveFields(s, width).value.0;
            var afterPoint := ParseUnbounded(s).value.1;
            && ParseUnbounded(s).value.0 == PointIndex(m.point, width)
            && afterPoint != [] && afterPoint[0] == m.direction
            && ParseUnbounded(afterPoint[1..]) == Some((m.units, ParseMoveFields(s, width).value.1))
  {
  }

  /** Regrouping the pieces a move was read from. */
  lemma MoveRegroup(s: seq<byte>, c1: seq<byte>, afterPoint: seq<byte>, d: byte, u: seq<byte>, c2: seq<byte>, rest: seq<byte>)
    requires s == c1 + afterPoint && afterPoint != [] && afterPoint[0] == d && u == afterPoint[1..]
    requires u == c2 + rest
    ensures s == c1 + [d] + c2 + rest
  {
    assert afterPoint == [d] + u;
    assert s == c1 + ([d] + (c2 + rest));
  }

  /** Soundness for moves: a decoded move consumed exactly a chain for the
      point, the direction byte and a chain for the units; the first chain's
      value is the point's index and the second's is the unit count. */
  lemma MoveConsumesChains(s: seq<byte>, width: nat)
    requires width > 0 && ParseMoveFields(s, width).Some?
    ensures var m := ParseMoveFields(s, width).value.0;
            var rest := ParseMoveFields(s, width).value.1;
            exists c1, c2 :: MoveLayout(s, c1, c2, m, rest, width)
  {
    var m := ParseMoveFields(s, width).value.0;
    var rest := ParseMoveFields(s, width).value.1;
    var afterPoint := ParseUnbounded(s).value.1;
    var u := afterPoint[1..];
    MoveFieldsSteps(s, width);
    ChainPrefix(s);
    ChainPrefix(u);
    var c1 := s[..|s| - |afterPoint|];
    var c2 := u[..|u| - |rest|];
    MoveRegroup(s, c1, afterPoint, m.direction, u, c2, rest);
    assert MoveLayout(s, c1, c2, m, rest, width);
  }

  /** Round trip for moves on a board of positive width. */
  lemma MoveRoundTrip(m: Move, width: nat, rest: seq<byte>)
    requires m.point.x < width
    ensures ParseMoveFields(EncodeMove(m, width) + rest, width) == Some((m, rest))
  {
    var tail := [m.direction] + Encode(m.units) + rest;
    assert EncodeMove(m, width) + rest == EncodePoint(m.point, width) + tail;
    PointRoundTrip(m.point, width, tail);
    assert tail[1..] == Encode(m.units) + rest;
    UnboundedRoundTrip(m.units, rest);
  }

  /** Input that ends inside a move (in its point, before its direction byte
      or inside its unit count) gives `None`. */
  lemma MoveTruncated(m: Move, width: nat, t: seq<byte>)
    requires m.point.x < width
    requires |t| < |EncodeMove(m, width)| && t == EncodeMove(m, width)[..|t|]
    ensures ParseMoveFields(t, width) == None
  {
    var ep := EncodePoint(m.point, width);
    if |t| < |ep| {
      assert t == ep[..|t|];
      UnboundedTruncated(PointIndex(m.point, width), t);
    } else {
      var tail := t[|ep|..];
      assert t == ep + tail;
      PointRoundTrip(m.point, width, tail);
      assert ParsePoint(t, width) == Some((m.point, tail));
      if tail != [] {
        var eu := Encode(m.units);
        assert tail[1..] == eu[..|tail| - 1];
        UnboundedTruncated(m.units, tail[1..]);
        assert ParseUnbounded(tail[1..]) == None;
      }
    }
  }

  /** Bytes after a complete move are left unread. */
  lemma MoveExtend(s: seq<byte>, width: nat, tail: seq<byte>)
    requires width > 0
    requires ParseMoveFields(s, width).Some?
    ensures ParseMoveFields(s + tail, width) ==
            Some((ParseMoveFields(s, width).value.0, ParseMoveFields(s, width).value.1 + tail))
  {
    UnboundedExtend(s, tail);
    var afterPoint := ParseUnbounded(s).value.1;
    assert (afterPoint + tail)[1..] == afterPoint[1..] + tail;
    UnboundedExtend(afterPoint[1..], tail);
  }
}
