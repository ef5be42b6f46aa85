/** The editor's connection registry (EditorManager): connections between
    nodes, stored under order-sensitive string keys, kept in step with the
    nodes' positions, and removed with a node or through their curve; plus the
    selection state that turns clicks and the Delete key into those calls. */
module Manager {
  import opened Types
  import opened Geometry
  import opened ConnectionKeys

  /** A connector between two nodes and the curve that renders it. The
      endpoints and the curve are fixed for the connection's lifetime; the
      four points are recomputed from the endpoints by Update. */
  class Connection {
    const rectA: Block
    const rectB: Block
    const line: Line
    var start: Point
    var end: Point
    var control1: Point
    var control2: Point
    /** The 'points' attribute last set on the curve. */
    var points: seq<real>

    function CurrentRoute(): (r: Route)
      reads this
    {
      Route(start, end, control1, control2)
    }

    /** The route for the endpoints' current rectangles. */
    ghost function Expected(): (r: Route)
      reads rectA, rectB
    {
      ComputeConnectionPoints(rectA.Shape(), rectB.Shape())
    }

    /** The stored points are g's, and the curve shows them. */
    ghost predicate Shows(g: Route)
      reads this
    {
      CurrentRoute() == g && points == Path(g)
    }

    /** The stored points are those of the endpoints' current positions, and
        the curve shows them. */
    ghost predicate Synced()
      reads this, rectA, rectB
    {
      Shows(Expected())
    }

    /** Creates the curve and computes the points. */
    constructor (rectA: Block, rectB: Block)
      ensures this.rectA == rectA && this.rectB == rectB
      ensures fresh(line)
      ensures Synced()
    {
      this.rectA := rectA;
      this.rectB := rectB;
      line := new Line();
      new;
      Update();
    }

    /** Recomputes the four points from the endpoints' current rectangles and
        sends them to the curve as start, control1, control2, end. */
    method Update()
      modifies this
      ensures Synced()
    {
      var route := ComputeConnectionPoints(rectA.Shape(), rectB.Shape());
      start := route.start;
      end := route.end;
      control1 := route.control1;
      control2 := route.control2;
      points := [start.x, start.y, control1.x, control1.y,
                 control2.x, control2.y, end.x, end.y];
    }

    /** This connection is rendered by l. */
    predicate MatchLine(l: Line)
    {
      line == l
    }
  }

  /** What a click lands on. */
  datatype Target = NodeTarget(node: Block) | LineTarget(line: Line) | Background

  /** The registry invariant: every key is the key of its connection's two
      endpoints, and no two connections share a curve. */
  ghost predicate Registered(m: map<string, Connection>)
  {
    (forall k | k in m :: k == ConnectKey(m[k].rectA.id, m[k].rectB.id)) &&
    (forall k1, k2 | k1 in m && k2 in m && k1 != k2 :: m[k1].line != m[k2].line)
  }

  /** The keys in which id occurs. */
  ghost function MentioningKeys(m: map<string, Connection>, id: string): (r: set<string>)
  {
    set k | k in m && IsSubstring(id, k)
  }

  /** The keys whose connection is rendered by line. */
  ghost function LineKeys(m: map<string, Connection>, line: Line): (r: set<string>)
  {
    set k | k in m && m[k].line == line
  }

  /** The registry after connect(node1, node2): unchanged if the key is taken,
      otherwise extended by exactly that key, mapped to a connection between
      the two nodes whose points are those of their current rectangles. */
  ghost predicate Connected(before: map<string, Connection>, after: map<string, Connection>,
                            node1: Block, node2: Block)
    reads node1, node2, after.Values
  {
    var key := ConnectKey(node1.id, node2.id);
    if key in before then after == before
    else
      key in after && after == before[key := after[key]] &&
      after[key].rectA == node1 && after[key].rectB == node2 &&
      after[key].CurrentRoute() == ComputeConnectionPoints(node1.Shape(), node2.Shape()) &&
      after[key].points == Path(after[key].CurrentRoute())
  }

  /** The registry after the Delete key: first the selected node's keys go,
      then the selected curve's connection. */
  ghost function AfterDelete(m: map<string, Connection>, node: Block?, line: Line?): (r: map<string, Connection>)
  {
    var afterNode := if node != null then m - MentioningKeys(m, node.id) else m;
    if line != null then afterNode - LineKeys(afterNode, line) else afterNode
  }

  /** Every connection of id's node is found by the substring test. */
  lemma EndpointsMentioned(m: map<string, Connection>, id: string)
    requires Registered(m)
    ensures forall k | k in m && (m[k].rectA.id == id || m[k].rectB.id == id) :: k in MentioningKeys(m, id)
  {
    forall k | k in m && (m[k].rectA.id == id || m[k].rectB.id == id)
      ensures k in MentioningKeys(m, id)
    {
      ConnectKeyMentionsBoth(m[k].rectA.id, m[k].rectB.id);
    }
  }

  /** A curve renders at most one registered connection. */
  lemma LineKeysAtMostOne(m: map<string, Connection>, line: Line)
    requires Registered(m)
    ensures forall k | k in LineKeys(m, line) :: LineKeys(m, line) == {k}
  {
  }

  /** matchLine singles out the connection rendered by a curve: in a registered
      map, the connections it accepts are exactly those of LineKeys, and when
      it accepts one, that key is the only one. */
  lemma MatchLineSelectsKey(m: map<string, Connection>, line: Line)
    requires Registered(m)
    ensures forall k | k in m :: m[k].MatchLine(line) <==> k in LineKeys(m, line)
    ensures forall k | k in m && m[k].MatchLine(line) :: LineKeys(m, line) == {k}
  {
    LineKeysAtMostOne(m, line);
  }

  /** Updates the connection under key; since no two registered connections
      share a curve, no other entry is touched. */
  method UpdateEntry(m: map<string, Connection>, key: string)
    requires Registered(m) && key in m
    modifies m[key]
    ensures m[key].Synced()
    ensures forall k | k in m && k != key :: m[k] != m[key]
  {
    m[key].Update();
  }

  class EditorManager {
    var nodes: seq<Block>
    var connections: map<string, Connection>
    var activeNode: Block?
    var activeLine: Line?

    ghost predicate Valid()
      reads this
    {
      Registered(connections)
    }

    constructor ()
      ensures Valid()
      ensures nodes == [] && connections == map[] && activeNode == null && activeLine == null
    {
      nodes := [];
      connections := map[];
      activeNode := null;
      activeLine := null;
    }

    /** Places a new 200 by 100 node at (100, 100) and records it. */
    method AddNode(id: string) returns (node: Block)
      requires Valid()
      modifies this
      ensures Valid()
      ensures fresh(node) && node.id == id && node.Shape() == Rect(100.0, 100.0, 200.0, 100.0)
      ensures nodes == old(nodes) + [node]
      ensures connections == old(connections)
      ensures activeNode == old(activeNode) && activeLine == old(activeLine)
    {
      node := new Block(id, 100.0, 100.0, 200.0, 100.0);
      nodes := nodes + [node];
    }

    /** Connects node1 to node2 unless that ordered pair's key is taken. */
    method Connect(node1: Block, node2: Block) returns (c: Connection?)
      requires Valid()
      modifies this
      ensures Valid()
      ensures Connected(old(connections), connections, node1, node2)
      ensures var key := ConnectKey(node1.id, node2.id);
              if key in old(connections) then c == null
              else c == connections[key] && fresh(c) && fresh(c.line)
      ensures forall k | k in old(connections) ::
                k in connections && connections[k] == old(connections)[k] && unchanged(connections[k])
      ensures nodes == old(nodes) && activeNode == old(activeNode) && activeLine == old(activeLine)
    {
      var key := ConnectKey(node1.id, node2.id);
      if key in connections {
        return null;
      }
      c := new Connection(node1, node2);
      connections := connections[key := c];
    }

    /** Forgets the connection under key, if any. */
    method RemoveConnection(key: string)
      requires Valid()
      modifies this
      ensures Valid()
      ensures connections == old(connections) - {key}
      ensures nodes == old(nodes) && activeNode == old(activeNode) && activeLine == old(activeLine)
    {
      connections := connections - {key};
    }

    /** Removes every connection whose key contains the node's id. */
    method RemoveNode(block: Block)
      requires Valid()
      modifies this
      ensures Valid()
      ensures connections == old(connections) - MentioningKeys(old(connections), block.id)
      ensures forall k | k in connections :: !IsSubstring(block.id, k)
      ensures forall k | k in connections :: connections[k].rectA.id != block.id && connections[k].rectB.id != block.id
      ensures forall k | k in old(connections) && !IsSubstring(block.id, k) ::
                k in connections && connections[k] == old(connections)[k]
      ensures nodes == old(nodes) && activeNode == old(activeNode) && activeLine == old(activeLine)
    {
      ghost var doomed := MentioningKeys(connections, block.id);
      var pending := connections.Keys;
      while pending != {}
        invariant pending <= old(connections).Keys
        invariant Valid()
        invariant connections == old(connections) - (doomed - pending)
        invariant nodes == old(nodes) && activeNode == old(activeNode) && activeLine == old(activeLine)
        decreases pending
      {
        var key :| key in pending;
        if Mentions(key, block.id) {
          RemoveConnection(key);
        }
        pending := pending - {key};
      }
      assert doomed - pending == doomed;
      EndpointsMentioned(old(connections), block.id);
    }

    /** Removes the connection rendered by line, if there is one. */
    method RemoveLine(line: Line)
      requires Valid()
      modifies this
      ensures Valid()
      ensures connections == old(connections) - LineKeys(old(connections), line)
      ensures forall k | k in LineKeys(old(connections), line) :: LineKeys(old(connections), line) == {k}
      ensures nodes == old(nodes) && activeNode == old(activeNode) && activeLine == old(activeLine)
    {
      LineKeysAtMostOne(connections, line);
      var pending := connections.Keys;
      while pending != {}
        invariant pending <= connections.Keys
        invariant connections == old(connections)
        invariant forall k | k in connections.Keys - pending :: connections[k].line != line
        decreases pending
      {
        var key :| key in pending;
        if connections[key].MatchLine(line) {
          assert LineKeys(connections, line) == {key};
          RemoveConnection(key);
          return;
        }
        pending := pending - {key};
      }
      assert LineKeys(connections, line) == {};
    }

    /** Recomputes the points of every connection whose key contains the
        node's id; every other connection is left as it was. */
    method Refresh(node: Block)
      requires Valid()
      modifies connections.Values
      ensures Valid() && connections == old(connections)
      ensures forall k | k in connections && IsSubstring(node.id, k) :: connections[k].Synced()
      ensures forall k | k in connections && !IsSubstring(node.id, k) :: unchanged(connections[k])
      ensures forall k | k in connections && (connections[k].rectA == node || connections[k].rectB == node) ::
                connections[k].Synced()
    {
      var m := connections;
      ghost var mentioning := set k | k in m && Mentions(k, node.id);
      var pending := m.Keys;
      while pending != {}
        invariant pending <= m.Keys
        invariant forall k | k in mentioning && k !in pending :: m[k].Synced()
        invariant forall k | k in m && (k in pending || k !in mentioning) :: unchanged(m[k])
        decreases pending
      {
        var key :| key in pending;
        if Mentions(key, node.id) {
          UpdateEntry(m, key);
        }
        pending := pending - {key};
      }
      forall k | k in m
        ensures k in mentioning <==> IsSubstring(node.id, k)
      {
        MentionsIsSubstring(k, node.id);
      }
      EndpointsMentioned(connections, node.id);
    }

    /** Forgets all nodes and connections. */
    method Destroy()
      modifies this
      ensures Valid()
      ensures nodes == [] && connections == map[]
      ensures activeNode == old(activeNode) && activeLine == old(activeLine)
    {
      nodes := [];
      connections := map[];
    }

    /** The Delete key: removes the selected node's connections, then the
        selected curve's connection. The selection itself is kept. */
    method DeleteActiveItem()
      requires Valid()
      modifies this
      ensures Valid()
      ensures connections == AfterDelete(old(connections), activeNode, activeLine)
      ensures nodes == old(nodes) && activeNode == old(activeNode) && activeLine == old(activeLine)
    {
      if activeNode != null {
        RemoveNode(activeNode);
      }
      if activeLine != null {
        RemoveLine(activeLine);
      }
    }

    /** A change of selected node connects the previous node to the new one
        when both are nodes and ctrl is held. */
    method HandleActiveNodeChange(oldNode: Block?, node: Block?, ctrl: bool)
      requires Valid()
      modifies this
      ensures Valid()
      ensures if oldNode != null && node != null && ctrl then Connected(old(connections), connections, oldNode, node)
              else connections == old(connections)
      ensures forall k | k in old(connections) ::
                k in connections && connections[k] == old(connections)[k] && unchanged(connections[k])
      ensures nodes == old(nodes) && activeNode == old(activeNode) && activeLine == old(activeLine)
    {
      if oldNode != null && node != null && ctrl {
        var _ := Connect(oldNode, node);
      }
    }

    /** A click selects the node or the curve it lands on (and clears the
        other selection), then reports the change of selected node. */
    method Click(target: Target, ctrl: bool)
      requires Valid()
      modifies this
      ensures Valid()
      ensures activeNode == (if target.NodeTarget? then target.node else null)
      ensures activeLine == (if target.LineTarget? then target.line else null)
      ensures if old(activeNode) != null && target.NodeTarget? && ctrl
              then Connected(old(connections), connections, old(activeNode), target.node)
              else connections == old(connections)
      ensures nodes == old(nodes)
    {
      var oldNode := activeNode;
      activeNode := if target.NodeTarget? then target.node else null;
      activeLine := if target.LineTarget? then target.line else null;
      HandleActiveNodeChange(oldNode, activeNode, ctrl);
    }

    /** Dragging a node refreshes its connections. */
    method Drag(target: Target)
      requires Valid()
      modifies connections.Values
      ensures Valid() && connections == old(connections)
      ensures target.NodeTarget? ==>
                forall k | k in connections && IsSubstring(target.node.id, k) :: connections[k].Synced()
      ensures forall k | k in connections && !(target.NodeTarget? && IsSubstring(target.node.id, k)) ::
                unchanged(connections[k])
    {
      if target.NodeTarget? {
        Refresh(target.node);
      }
    }

    /** Releasing a key: only "Delete" does anything. */
    method KeyUp(code: string)
      requires Valid()
      modifies this
      ensures Valid()
      ensures connections == if code == "Delete" then AfterDelete(old(connections), activeNode, activeLine)
                             else old(connections)
      ensures nodes == old(nodes) && activeNode == old(activeNode) && activeLine == old(activeLine)
    {
      if code == "Delete" {
        DeleteActiveItem();
      }
    }
  }

  /** Connecting a pair twice keeps one entry, with the anchors on the facing sides. */
  method ConnectTwiceScenario() returns (keys: set<string>, start: Point, end: Point, secondAdded: bool)
    ensures keys == {"A_B"} && !secondAdded
    ensures start == Point(200.0, 50.0) && end == Point(400.0, 50.0)
  {
    var manager := new EditorManager();
    var a := new Block("A", 0.0, 0.0, 200.0, 100.0);
    var b := new Block("B", 400.0, 0.0, 200.0, 100.0);
    assert ConnectKey(a.id, b.id) == "A_B";
    SideBySideExample();
    var ab := manager.Connect(a, b);
    assert ab != null && ab.start == Point(200.0, 50.0) && ab.end == Point(400.0, 50.0);
    start, end := ab.start, ab.end;
    var again := manager.Connect(a, b);
    keys, secondAdded := manager.connections.Keys, again != null;
  }

  /** Moving A from the left of B to its right and refreshing A moves the
      connector to A's left side and B's right side. */
  method MoveScenario(manager: EditorManager, a: Block, b: Block, ab: Connection)
    requires manager.Valid() && manager.connections == map["A_B" := ab]
    requires ab.rectA == a && ab.rectB == b && a != b && a.id == "A" && b.id == "B"
    requires b.Shape() == Rect(400.0, 0.0, 200.0, 100.0)
    requires a.Shape() == Rect(0.0, 0.0, 200.0, 100.0)
    modifies a, ab
    ensures ab.start == Point(700.0, 50.0) && ab.end == Point(600.0, 50.0)
  {
    a.x := 700.0;
    assert ConnectKey(a.id, b.id) == "A_B";
    ConnectKeyMentionsBoth(a.id, b.id);
    manager.Refresh(a);
    assert ab.Synced();
    SideChoice(a.Shape(), b.Shape());
  }

  /** "A" occurs in "A_B" but not in "B_C". */
  lemma ScenarioMentions()
    ensures IsSubstring("A", "A_B") && !IsSubstring("A", "B_C")
  {
    assert OccursAt("A_B", "A", 0);
    forall i: nat
      ensures !OccursAt("B_C", "A", i)
    {
      if i < 3 { assert "B_C"[i] != 'A'; }
    }
  }

  /** Of the keys "A_B" and "B_C", only the first involves node "A". */
  lemma ScenarioMentioningKeys(m: map<string, Connection>)
    requires m.Keys == {"A_B", "B_C"}
    ensures MentioningKeys(m, "A") == {"A_B"}
  {
    ScenarioMentions();
  }

  /** With connections A to B and B to C, removing node A leaves only B to C. */
  method RemoveNodeScenario(manager: EditorManager, a: Block, ab: Connection, bc: Connection)
    requires manager.Valid() && manager.connections == map["A_B" := ab, "B_C" := bc]
    requires a.id == "A"
    modifies manager
    ensures manager.connections == map["B_C" := bc]
  {
    ScenarioMentioningKeys(manager.connections);
    ghost var before := manager.connections;
    manager.RemoveNode(a);
    assert manager.connections == before - {"A_B"};
  }
}
