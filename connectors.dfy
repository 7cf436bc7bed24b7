/** The geometry of components/org-chart.tsx: the measured position of each
    rendered card, the line colour of a card colour, and the elbow connector
    drawn from a parent's card down to each child's card. Boxes are the
    measurements the browser reports, taken here as inputs over `real`. */
module Connectors {
  import opened EmployeeTypes
  import opened Search

  /** A box as measured on screen: left and top edge, width and height. */
  datatype Rect = Rect(left: real, top: real, width: real, height: real)

  /** A rendered card: the employee id it carries and its measured box. */
  datatype Card = Card(id: int, box: Rect)

  /** The remembered position of a card, relative to the chart container:
      `x` is the card's horizontal centre, `y` its top edge. */
  datatype Position = Position(id: int, x: real, y: real, width: real, height: real, color: string)

  datatype Point = Point(x: real, y: real)

  /** The SVG elements of a connector: a line segment or a filled circle. */
  datatype Shape =
    | Path(from: Point, to: Point, stroke: string, strokeWidth: int)
    | Circle(center: Point, radius: int, fill: string)

  // ---------------------------------------------------------------------------
  // Line colours

  /** The line colour of each card colour tag. */
  const ColorMap: map<string, string> := map[
    "orange" := "#f97316",
    "blue" := "#3b82f6",
    "purple" := "#a855f7",
    "green" := "#22c55e",
    "red" := "#ef4444",
    "gray" := "#6b7280"]

  /** getLineColor: the mapped colour of a known tag, gray for any other. */
  function LineColor(color: string): (r: string)
    ensures r in ColorMap.Values
    ensures color in ColorMap ==> r == ColorMap[color]
    ensures color !in ColorMap ==> r == "#6b7280"
  {
    if color in ColorMap then ColorMap[color] else ColorMap["gray"]
  }

  /** A card gets gray connector lines exactly when its record has no colour,
      an empty one, the tag "gray", or a tag outside the colour map. */
  lemma GrayLinesForPlainCards(e: Employee)
    ensures LineColor(CardColor(e)) == "#6b7280" <==>
            e.color.None? || e.color.value == "" || e.color.value == "gray" || e.color.value !in ColorMap
  {
    if e.color.Some? && e.color.value != "" && e.color.value in ColorMap && e.color.value != "gray" {
      LineColorDistinguishes(e.color.value, "gray");
    }
  }

  /** Two different known tags never share a line colour. */
  lemma LineColorDistinguishes(a: string, b: string)
    requires a in ColorMap && b in ColorMap && a != b
    ensures LineColor(a) != LineColor(b)
  {
  }

  // ---------------------------------------------------------------------------
  // Card positions

  /** The colour remembered for a card: the employee's colour when it is a
      non-empty string, "gray" when it is missing or empty. */
  function CardColor(e: Employee): (r: string)
    ensures r != ""
    ensures e.color.Some? && e.color.value != "" ==> r == e.color.value
    ensures e.color.None? || e.color.value == "" ==> r == "gray"
  {
    if e.color.Some? && e.color.value != "" then e.color.value else "gray"
  }

  /** The first record with id `id`, as Array.prototype.find returns it. */
  function FindEmployee(data: seq<Employee>, id: int): (r: Option<Employee>)
    ensures r.None? <==> id !in Ids(data)
    ensures r.Some? ==> exists i :: 0 <= i < |data| && data[i] == r.value && data[i].id == id &&
                                    forall j :: 0 <= j < i ==> data[j].id != id
  {
    if data == [] then None
    else if data[0].id == id then
      Some(data[0])
    else
      var r := FindEmployee(data[1..], id);
      assert Ids(data) == {data[0].id} + Ids(data[1..]) by {
        forall x | x in Ids(data) ensures x in {data[0].id} + Ids(data[1..]) {
          var i :| 0 <= i < |data| && data[i].id == x;
          if i > 0 { assert data[1..][i - 1] == data[i]; }
        }
      }
      if r.Some? then
        var i :| 0 <= i < |data[1..]| && data[1..][i] == r.value && data[1..][i].id == id &&
                 forall j :: 0 <= j < i ==> data[1..][j].id != id;
        assert data[i + 1] == r.value && forall j :: 0 <= j < i + 1 ==> data[j].id != id;
        r
      else
        r
  }

  /** The position of one card, which shows record `e`, relative to the
      container box. */
  function PositionOf(card: Card, container: Rect, e: Employee): (r: Position)
    ensures r.id == card.id && r.color == CardColor(e)
    ensures r.width == card.box.width && r.height == card.box.height
    ensures r.x - (card.box.left - container.left) == card.box.width / 2.0
    ensures r.y + container.top == card.box.top
  {
    Position(card.id,
             card.box.left - container.left + card.box.width / 2.0,
             card.box.top - container.top,
             card.box.width, card.box.height, CardColor(e))
  }

  /** The ids of a list of cards. */
  function CardIds(cards: seq<Card>): set<int>
  {
    set i | 0 <= i < |cards| :: cards[i].id
  }

  /** The ids of a list of positions. */
  function PositionIds(ps: seq<Position>): set<int>
  {
    set i | 0 <= i < |ps| :: ps[i].id
  }

  /** The rendered cards whose id names a record, in card order. */
  function MeasuredCards(cards: seq<Card>, data: seq<Employee>): (r: seq<Card>)
    ensures forall k :: 0 <= k < |r| ==> r[k].id in Ids(data)
  {
    var r := Filter(cards, (c: Card) => c.id in Ids(data));
    assert forall k :: 0 <= k < |r| ==> r[k] in r;
    r
  }

  /** Taking the first card off the list takes it off the measured cards
      when it names a record. */
  lemma MeasuredCardsCons(cards: seq<Card>, data: seq<Employee>)
    requires cards != []
    ensures MeasuredCards(cards, data) ==
            (if cards[0].id in Ids(data) then [cards[0]] else []) + MeasuredCards(cards[1..], data)
  {
  }

  /** The ids of a list of cards are the first card's id and the rest's. */
  lemma CardIdsCons(cards: seq<Card>)
    requires cards != []
    ensures CardIds(cards) == {cards[0].id} + CardIds(cards[1..])
  {
    forall x | x in CardIds(cards) ensures x in {cards[0].id} + CardIds(cards[1..]) {
      var i :| 0 <= i < |cards| && cards[i].id == x;
      if i > 0 { assert cards[1..][i - 1] == cards[i]; }
    }
  }

  /** The ids of a list of positions with one in front. */
  lemma PositionIdsCons(p: Position, rest: seq<Position>)
    ensures PositionIds([p] + rest) == {p.id} + PositionIds(rest)
  {
    var r := [p] + rest;
    assert r[0].id == p.id;
    forall x | x in PositionIds(r) ensures x in {p.id} + PositionIds(rest) {
      var i :| 0 <= i < |r| && r[i].id == x;
      if i > 0 { assert rest[i - 1] == r[i]; }
    }
    forall x | x in PositionIds(rest) ensures x in PositionIds(r) {
      var i :| 0 <= i < |rest| && rest[i].id == x;
      assert r[i + 1] == rest[i];
    }
  }

  /** The positions measured from the rendered cards, in card order; a card
      whose id names no record is skipped. */
  function PositionsOf(cards: seq<Card>, data: seq<Employee>, container: Rect): (r: seq<Position>)
    ensures |r| <= |cards|
    ensures PositionIds(r) == CardIds(cards) * Ids(data)
    ensures forall k :: 0 <= k < |r| ==> r[k].color != ""
  {
    if cards == [] then []
    else
      var rest := PositionsOf(cards[1..], data, container);
      CardIdsCons(cards);
      match FindEmployee(data, cards[0].id)
      case None => rest
      case Some(e) =>
        var p := PositionOf(cards[0], container, e);
        PositionIdsCons(p, rest);
        [p] + rest
  }

  /** Position k is measured from the k-th card that names a record, with the
      first record carrying that id: the positions follow card order and each
      takes its geometry from its own card's box. */
  lemma {:induction false} PositionsFromCards(cards: seq<Card>, data: seq<Employee>, container: Rect)
    ensures |PositionsOf(cards, data, container)| == |MeasuredCards(cards, data)|
    ensures forall k :: 0 <= k < |MeasuredCards(cards, data)| ==>
              PositionsOf(cards, data, container)[k] ==
              PositionOf(MeasuredCards(cards, data)[k], container, FindEmployee(data, MeasuredCards(cards, data)[k].id).value)
  {
    if cards != [] {
      PositionsFromCards(cards[1..], data, container);
      MeasuredCardsCons(cards, data);
      var r, rest := PositionsOf(cards, data, container), PositionsOf(cards[1..], data, container);
      var m, later := MeasuredCards(cards, data), MeasuredCards(cards[1..], data);
      if cards[0].id in Ids(data) {
        assert m == [cards[0]] + later;
        assert r == [PositionOf(cards[0], container, FindEmployee(data, cards[0].id).value)] + rest;
        forall k | 0 < k < |m|
          ensures r[k] == PositionOf(m[k], container, FindEmployee(data, m[k].id).value)
        {
          assert r[k] == rest[k - 1] && m[k] == later[k - 1];
        }
      } else {
        assert m == later && r == rest;
      }
    }
  }

  /** Each position carries the colour of the first record with its id. */
  lemma {:induction false} PositionColor(cards: seq<Card>, data: seq<Employee>, container: Rect, k: int)
    requires 0 <= k < |PositionsOf(cards, data, container)|
    ensures FindEmployee(data, PositionsOf(cards, data, container)[k].id).Some?
    ensures PositionsOf(cards, data, container)[k].color ==
            CardColor(FindEmployee(data, PositionsOf(cards, data, container)[k].id).value)
  {
    var rest := PositionsOf(cards[1..], data, container);
    match FindEmployee(data, cards[0].id)
    case None =>
      PositionColor(cards[1..], data, container, k);
    case Some(e) =>
      if k > 0 {
        PositionColor(cards[1..], data, container, k - 1);
      }
  }

  // ---------------------------------------------------------------------------
  // Connectors

  /** The first position with id `id`, as Array.prototype.find returns it. */
  function FindPosition(ps: seq<Position>, id: int): (r: Option<Position>)
    ensures r.None? <==> id !in PositionIds(ps)
    ensures r.Some? ==> exists i :: 0 <= i < |ps| && ps[i] == r.value && ps[i].id == id &&
                                    forall j :: 0 <= j < i ==> ps[j].id != id
  {
    if ps == [] then None
    else if ps[0].id == id then
      Some(ps[0])
    else
      var r := FindPosition(ps[1..], id);
      assert PositionIds(ps) == {ps[0].id} + PositionIds(ps[1..]) by {
        forall x | x in PositionIds(ps) ensures x in {ps[0].id} + PositionIds(ps[1..]) {
          var i :| 0 <= i < |ps| && ps[i].id == x;
          if i > 0 { assert ps[1..][i - 1] == ps[i]; }
        }
      }
      if r.Some? then
        var i :| 0 <= i < |ps[1..]| && ps[1..][i] == r.value && ps[1..][i].id == id &&
                 forall j :: 0 <= j < i ==> ps[1..][j].id != id;
        assert ps[i + 1] == r.value && forall j :: 0 <= j < i + 1 ==> ps[j].id != id;
        r
      else
        r
  }

  /** The bottom centre of a card. */
  function BottomCenter(p: Position): Point
  {
    Point(p.x, p.y + p.height)
  }

  /** The top centre of a card. */
  function TopCenter(p: Position): Point
  {
    Point(p.x, p.y)
  }

  /** The elbow from a parent's card to a child's card: down to the height
      halfway between the two cards, across, and down again, with a dot at
      each end, everything in the parent's line colour. */
  function Elbow(parent: Position, child: Position): (r: seq<Shape>)
    ensures |r| == 5 && r[0].Path? && r[1].Path? && r[2].Path? && r[3].Circle? && r[4].Circle?
    // the path leaves the parent's bottom centre and ends at the child's top centre
    ensures r[0].from == BottomCenter(parent) && r[2].to == TopCenter(child)
    // the three segments join up
    ensures r[0].to == r[1].from && r[1].to == r[2].from
    // vertical, horizontal, vertical
    ensures r[0].from.x == r[0].to.x && r[1].from.y == r[1].to.y && r[2].from.x == r[2].to.x
    // the horizontal run lies halfway between the two cards
    ensures r[0].to.y - r[0].from.y == r[2].to.y - r[2].from.y
    // the dots sit on the two ends
    ensures r[3].center == r[0].from && r[4].center == r[2].to
    ensures r[3].radius == 4 && r[4].radius == 4
    ensures forall k :: 0 <= k < 3 ==> r[k].stroke == LineColor(parent.color) && r[k].strokeWidth == 2
    ensures forall k :: 3 <= k < 5 ==> r[k].fill == LineColor(parent.color)
  {
    var start, end := BottomCenter(parent), TopCenter(child);
    var midY := (start.y + end.y) / 2.0;
    var color := LineColor(parent.color);
    [Path(start, Point(start.x, midY), color, 2),
     Path(Point(start.x, midY), Point(end.x, midY), color, 2),
     Path(Point(end.x, midY), end, color, 2),
     Circle(start, 4, color),
     Circle(end, 4, color)]
  }

  /** Whether the connector of `e` is drawn: its parent id is truthy and
      both it and its parent have a position. */
  predicate HasConnector(e: Employee, ps: seq<Position>)
  {
    ParentOf(e).Some? && ParentOf(e).value in PositionIds(ps) && e.id in PositionIds(ps)
  }

  /** The shapes drawn for one record: the elbow from the first position of
      its parent to its own first position, or nothing. */
  function ConnectorFor(e: Employee, ps: seq<Position>): (r: seq<Shape>)
    ensures r != [] <==> HasConnector(e, ps)
    ensures HasConnector(e, ps) ==>
              r == Elbow(FindPosition(ps, ParentOf(e).value).value, FindPosition(ps, e.id).value)
  {
    if ParentOf(e).None? then []
    else
      match (FindPosition(ps, ParentOf(e).value), FindPosition(ps, e.id))
      case (Some(parent), Some(child)) => Elbow(parent, child)
      case _ => []
  }

  /** All connector shapes, record by record in input order. */
  function ConnectorShapes(data: seq<Employee>, ps: seq<Position>): (r: seq<Shape>)
    ensures ps == [] ==> r == []
    ensures forall s :: s in r <==> exists i :: 0 <= i < |data| && s in ConnectorFor(data[i], ps)
  {
    if data == [] then []
    else
      var head, rest := ConnectorFor(data[0], ps), ConnectorShapes(data[1..], ps);
      assert forall i :: 0 < i < |data| ==> data[i] == data[1..][i - 1];
      assert forall s :: s in head + rest <==> s in head || s in rest;
      head + rest
  }

  /** Five shapes are drawn for each record that has a connector and none
      for the others. */
  lemma {:induction false} ConnectorShapesCount(data: seq<Employee>, ps: seq<Position>)
    ensures |ConnectorShapes(data, ps)| == 5 * |Filter(data, e => HasConnector(e, ps))|
  {
    if data != [] {
      ConnectorShapesCount(data[1..], ps);
    }
  }

  /** Every drawn shape is the connector of some record whose card and whose
      parent's card are both positioned: nothing is drawn for a card that is
      no longer on screen. */
  lemma ShapesAreAnchored(data: seq<Employee>, ps: seq<Position>, s: Shape)
    requires s in ConnectorShapes(data, ps)
    ensures exists i :: 0 <= i < |data| && HasConnector(data[i], ps) && s in ConnectorFor(data[i], ps)
  {
    var i :| 0 <= i < |data| && s in ConnectorFor(data[i], ps);
  }

  // ---------------------------------------------------------------------------
  // Redrawing the connector layer

  /** The connector layer after the drawing effect as it is written: with no
      positions it returns before clearing, so the shapes already drawn stay. */
  function RedrawnAsWritten(drawn: seq<Shape>, data: seq<Employee>, ps: seq<Position>): (r: seq<Shape>)
    ensures |ps| > 0 ==> r == ConnectorShapes(data, ps)
    ensures |ps| == 0 ==> r == drawn
  {
    if |ps| == 0 then drawn else ConnectorShapes(data, ps)
  }

  /** When the search hides every card after connectors were drawn, the old
      connectors stay on screen although no card is left to connect. */
  lemma StaleConnectorsRemain(parent: Position, child: Position, data: seq<Employee>)
    ensures RedrawnAsWritten(Elbow(parent, child), data, []) != Redrawn(data, [])
  {
    assert |Elbow(parent, child)| == 5;
  }

  /** The connector layer after a redraw that always clears it first: it
      holds exactly the connectors of the current positions, so it is empty
      once no card is positioned. */
  function Redrawn(data: seq<Employee>, ps: seq<Position>): (r: seq<Shape>)
    ensures ps == [] ==> r == []
    ensures forall s :: s in r ==> exists i :: 0 <= i < |data| && HasConnector(data[i], ps) && s in ConnectorFor(data[i], ps)
  {
    var r := ConnectorShapes(data, ps);
    forall s | s in r
      ensures exists i :: 0 <= i < |data| && HasConnector(data[i], ps) && s in ConnectorFor(data[i], ps)
    {
      ShapesAreAnchored(data, ps, s);
    }
    r
  }
}
