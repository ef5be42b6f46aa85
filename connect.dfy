/** The older connector variant (ConnectionManager): the same anchor choice as
    the geometry engine, but control points derived from the two anchors alone,
    with unsigned offsets, and a registry that only connects and refreshes. */
module LegacyConnect {
  import opened Types
  import Geometry
  import opened ConnectionKeys

  /** The two anchors of a connector. */
  datatype Endpoints = Endpoints(start: Point, end: Point)

  /** The two control points of a connector. */
  datatype Controls = Controls(control1: Point, control2: Point)

  /** The midpoints of the rectangle's top, bottom, left and right sides. */
  function GetConnectionPoints(rect: Rect): (r: Geometry.Anchors)
  {
    Geometry.Anchors(
      Point(rect.x + rect.width / 2.0, rect.y),
      Point(rect.x + rect.width / 2.0, rect.y + rect.height),
      Point(rect.x, rect.y + rect.height / 2.0),
      Point(rect.x + rect.width, rect.y + rect.height / 2.0))
  }

  /** Anchors on the facing sides along the dominant axis of the centre
      displacement; ties are vertical. */
  function ComputeConnectionPoints(rectA: Rect, rectB: Rect): (r: Endpoints)
  {
    var centerA := Point(rectA.x + rectA.width / 2.0, rectA.y + rectA.height / 2.0);
    var centerB := Point(rectB.x + rectB.width / 2.0, rectB.y + rectB.height / 2.0);
    var dx := centerB.x - centerA.x;
    var dy := centerB.y - centerA.y;
    var isHorizontal := Geometry.Abs(dx) > Geometry.Abs(dy);
    var startSide: Geometry.Side :=
      if isHorizontal then (if dx > 0.0 then Geometry.Right else Geometry.Left)
      else (if dy > 0.0 then Geometry.Bottom else Geometry.Top);
    var endSide: Geometry.Side :=
      if isHorizontal then (if dx > 0.0 then Geometry.Left else Geometry.Right)
      else (if dy > 0.0 then Geometry.Top else Geometry.Bottom);
    Endpoints(Geometry.AnchorAt(GetConnectionPoints(rectA), startSide),
              Geometry.AnchorAt(GetConnectionPoints(rectB), endSide))
  }

  /** Control points 10 units along the dominant axis of end - start, always in
      the positive direction from the start; in the vertical case the second one
      is placed relative to the start's y, not the end's. */
  function GetControlPoints(start: Point, end: Point): (r: Controls)
  {
    var dx := end.x - start.x;
    var dy := end.y - start.y;
    var isHorizontalFirst := Geometry.Abs(dx) > Geometry.Abs(dy);
    var offset := 10.0;
    if isHorizontalFirst then
      Controls(Point(start.x + offset, start.y), Point(end.x - offset, end.y))
    else
      Controls(Point(start.x, start.y + offset), Point(end.x, start.y - offset))
  }

  /** This variant's anchors are exactly the geometry engine's. */
  lemma SameAnchors(r: Rect)
    ensures GetConnectionPoints(r) == Geometry.GetConnectionPoints(r)
  {
  }

  /** This variant's start and end are exactly the geometry engine's. */
  lemma SameEndpoints(a: Rect, b: Rect)
    ensures ComputeConnectionPoints(a, b).start == Geometry.ComputeConnectionPoints(a, b).start
    ensures ComputeConnectionPoints(a, b).end == Geometry.ComputeConnectionPoints(a, b).end
  {
  }

  /** The control points, case by case: horizontal-first iff the anchors are
      further apart in x than in y; no sign adjustment; in the vertical case
      control2 takes the end's x and the start's y minus 10. */
  lemma ControlPointCases(start: Point, end: Point)
    ensures var c := GetControlPoints(start, end);
            (Geometry.Abs(end.x - start.x) > Geometry.Abs(end.y - start.y) ==>
               c.control1 == Point(start.x + 10.0, start.y) && c.control2 == Point(end.x - 10.0, end.y)) &&
            (Geometry.Abs(end.x - start.x) <= Geometry.Abs(end.y - start.y) ==>
               c.control1 == Point(start.x, start.y + 10.0) && c.control2 == Point(end.x, start.y - 10.0))
    ensures var c := GetControlPoints(start, end);
            c.control1.y - start.y + c.control1.x - start.x == 10.0
  {
  }

  /** The vertical case does not depend on the end's y at all: a connector going
      straight down from (0,0) to (0,100) gets control2 at (0,-10), above its
      start, where the geometry engine's counterpart puts it at (0,90). */
  lemma VerticalControlIgnoresEndY()
    ensures GetControlPoints(Point(0.0, 0.0), Point(0.0, 100.0)).control2 == Point(0.0, -10.0)
    ensures GetControlPoints(Point(0.0, 0.0), Point(0.0, 100.0)).control2
            == GetControlPoints(Point(0.0, 0.0), Point(0.0, 500.0)).control2
    ensures Geometry.ComputeConnectionPoints(Rect(-50.0, -100.0, 100.0, 100.0), Rect(-50.0, 100.0, 100.0, 100.0))
            == Geometry.Route(Point(0.0, 0.0), Point(0.0, 100.0), Point(0.0, 10.0), Point(0.0, 90.0))
  {
  }

  /** For a rightward connector whose anchors are also further apart in x than
      in y, both variants give the same control points. */
  lemma RightwardControlsAgree(a: Rect, b: Rect)
    requires Geometry.IsHorizontal(a, b) && Geometry.Dx(a, b) > 0.0
    requires var e := ComputeConnectionPoints(a, b);
             Geometry.Abs(e.end.x - e.start.x) > Geometry.Abs(e.end.y - e.start.y)
    ensures var e := ComputeConnectionPoints(a, b);
            var g := Geometry.ComputeConnectionPoints(a, b);
            GetControlPoints(e.start, e.end) == Controls(g.control1, g.control2)
  {
  }

  /** A connector of this variant and the curve that renders it. */
  class Connection {
    const rectA: Block
    const rectB: Block
    const line: Line
    var start: Point
    var end: Point
    var control1: Point
    var control2: Point
    /** The 'points' attribute last set on the curve. */
    var points: seq<real>

    function CurrentRoute(): (r: Geometry.Route)
      reads this
    {
      Geometry.Route(start, end, control1, control2)
    }

    /** Anchors from the endpoints' current rectangles and controls from the
        anchors. */
    ghost function Expected(): (r: Geometry.Route)
      reads rectA, rectB
    {
      var e := ComputeConnectionPoints(rectA.Shape(), rectB.Shape());
      var c := GetControlPoints(e.start, e.end);
      Geometry.Route(e.start, e.end, c.control1, c.control2)
    }

    /** The stored points are g's, and the curve shows them. */
    ghost predicate Shows(g: Geometry.Route)
      reads this
    {
      CurrentRoute() == g && points == Geometry.Path(g)
    }

    /** The stored points are those derived from the endpoints' current
        rectangles, and the curve shows them. */
    ghost predicate Synced()
      reads this, rectA, rectB
    {
      Shows(Expected())
    }

    constructor (rectA: Block, rectB: Block)
      ensures this.rectA == rectA && this.rectB == rectB
      ensures fresh(line)
      ensures Synced()
    {
      this.rectA := rectA;
      this.rectB := rectB;
      line := new Line();
      new;
      Update();
    }

    /** Recomputes the anchors, then the controls from them, and sends the
        points to the curve as start, control1, control2, end. */
    method Update()
      modifies this
      ensures Synced()
    {
      var endpoints := ComputeConnectionPoints(rectA.Shape(), rectB.Shape());
      start := endpoints.start;
      end := endpoints.end;
      var controls := GetControlPoints(start, end);
      control1 := controls.control1;
      control2 := controls.control2;
      points := [start.x, start.y, control1.x, control1.y,
                 control2.x, control2.y, end.x, end.y];
    }
  }

  /** Every key is the key of its connection's endpoints; no two connections
      share a curve. */
  ghost predicate Registered(m: map<string, Connection>)
  {
    (forall k | k in m :: k == ConnectKey(m[k].rectA.id, m[k].rectB.id)) &&
    (forall k1, k2 | k1 in m && k2 in m && k1 != k2 :: m[k1].line != m[k2].line)
  }

  /** Updates the connection under key; since no two registered connections
      share a curve, no other entry is touched. */
  method UpdateEntry(m: map<string, Connection>, key: string)
    requires Registered(m) && key in m
    modifies m[key]
    ensures m[key].Synced()
    ensures forall k | k in m && k != key :: m[k] != m[key]
  {
    m[key].Update();
  }

  class ConnectionManager {
    var connections: map<string, Connection>

    ghost predicate Valid()
      reads this
    {
      Registered(connections)
    }

    constructor ()
      ensures Valid() && connections == map[]
    {
      connections := map[];
    }

    /** Connects node1 to node2 unless that ordered pair's key is taken. */
    method Connect(node1: Block, node2: Block) returns (c: Connection?)
      requires Valid()
      modifies this
      ensures Valid()
      ensures var key := ConnectKey(node1.id, node2.id);
              if key in old(connections) then c == null && connections == old(connections)
              else c != null && fresh(c) && connections == old(connections)[key := c] &&
                   c.rectA == node1 && c.rectB == node2 && c.Synced()
      ensures forall k | k in old(connections) :: unchanged(old(connections)[k])
    {
      var key := ConnectKey(node1.id, node2.id);
      if key in connections {
        return null;
      }
      c := new Connection(node1, node2);
      connections := connections[key := c];
    }

    /** Recomputes every connection whose key contains the node's id. */
    method Refresh(node: Block)
      requires Valid()
      modifies connections.Values
      ensures connections == old(connections)
      ensures forall k | k in connections && IsSubstring(node.id, k) :: connections[k].Synced()
      ensures forall k | k in connections && !IsSubstring(node.id, k) :: unchanged(connections[k])
    {
      var m := connections;
      ghost var mentioning := set k | k in m && Mentions(k, node.id);
      var pending := m.Keys;
      while pending != {}
        invariant pending <= m.Keys
        invariant forall k | k in mentioning && k !in pending :: m[k].Synced()
        invariant forall k | k in m && (k in pending || k !in mentioning) :: unchanged(m[k])
        decreases pending
      {
        var key :| key in pending;
        if Mentions(key, node.id) {
          UpdateEntry(m, key);
        }
        pending := pending - {key};
      }
      forall k | k in m
        ensures k in mentioning <==> IsSubstring(node.id, k)
      {
        MentionsIsSubstring(k, node.id);
      }
    }
  }

  /** Connecting an ordered pair twice leaves one entry; connecting the
      reversed pair of distinct separator-free ids adds a second one. */
  method ConnectTwiceScenario() returns (afterTwice: set<string>, secondAdded: bool, afterReversed: set<string>)
    ensures afterTwice == {"a_b"} && !secondAdded
    ensures afterReversed == {"a_b", "b_a"}
  {
    var manager := new ConnectionManager();
    var a := new Block("a", 0.0, 0.0, 200.0, 100.0);
    var b := new Block("b", 400.0, 0.0, 200.0, 100.0);
    assert ConnectKey(a.id, b.id) == "a_b" && ConnectKey(b.id, a.id) == "b_a";
    var first := manager.Connect(a, b);
    var second := manager.Connect(a, b);
    afterTwice, secondAdded := manager.connections.Keys, second != null;
    var reversed := manager.Connect(b, a);
    afterReversed := manager.connections.Keys;
  }
}
