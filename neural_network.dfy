// The background particle field ("neural network" canvas): a fixed number
// of drifting nodes that bounce off the canvas edges, with a line between
// every two nodes closer than MAX_DIST, fading linearly with distance.

module NeuralNetwork {

  /** NUM_NODES: how many nodes `createNodes` builds. */
  const NumNodes: nat := 70

  /** MAX_DIST: pairs at this distance or more are not linked. */
  const MaxDist: real := 150.0

  /** The state of one node object: position, velocity and radius. */
  datatype NodeState = NodeState(x: real, y: real, vx: real, vy: real, radius: real)

  function Abs(v: real): real
  {
    if v < 0.0 then -v else v
  }

  /**
   * One axis of `moveNode`: the position moves by the velocity, and the
   * velocity is negated when the new position is at or past either edge.
   */
  function Bounce(pos: real, vel: real, bound: real): (real, real)
  {
    var p := pos + vel;
    (p, if p <= 0.0 || p >= bound then vel * -1.0 else vel)
  }

  /** `moveNode` on the node's state, for a canvas of the given size. */
  function Moved(n: NodeState, width: real, height: real): NodeState
  {
    var (x, vx) := Bounce(n.x, n.vx, width);
    var (y, vy) := Bounce(n.y, n.vy, height);
    NodeState(x, y, vx, vy, n.radius)
  }

  /**
   * One frame moves every node once; nodes do not interact, so each node's
   * new state depends on its old state alone. On a canvas of non-negative
   * size a frame keeps every node in band.
   */
  function MoveAll(s: seq<NodeState>, width: real, height: real): (r: seq<NodeState>)
    ensures |r| == |s|
    ensures forall k :: 0 <= k < |s| ==> r[k] == Moved(s[k], width, height)
    ensures width >= 0.0 && height >= 0.0 && AllInBand(s, width, height) ==> AllInBand(r, width, height)
  {
    seq(|s|, k requires 0 <= k < |s| => Moved(s[k], width, height))
  }

  /**
   * A node moves by exactly its velocity before the step; each velocity
   * component keeps its magnitude and is negated exactly when the new
   * coordinate is at or beyond an edge.
   */
  lemma MoveNodeSpec(n: NodeState, width: real, height: real)
    ensures var m := Moved(n, width, height);
      m.x - n.x == n.vx && m.y - n.y == n.vy && m.radius == n.radius &&
      Abs(m.vx) == Abs(n.vx) && Abs(m.vy) == Abs(n.vy) &&
      (m.x <= 0.0 || m.x >= width ==> m.vx == -n.vx) &&
      (0.0 < m.x < width ==> m.vx == n.vx) &&
      (m.y <= 0.0 || m.y >= height ==> m.vy == -n.vy) &&
      (0.0 < m.y < height ==> m.vy == n.vy)
  {
  }

  /**
   * The containment the bounce really gives on one axis: the coordinate is
   * at most one velocity step outside [0, bound], and when it is outside,
   * the velocity already points back in.
   */
  predicate InBand(pos: real, vel: real, bound: real)
  {
    -Abs(vel) <= pos <= bound + Abs(vel) &&
    (pos < 0.0 ==> vel > 0.0) &&
    (pos > bound ==> vel < 0.0)
  }

  /** A step keeps a coordinate in its band. */
  lemma BandPreserved(pos: real, vel: real, bound: real)
    requires bound >= 0.0 && InBand(pos, vel, bound)
    ensures var (p, v) := Bounce(pos, vel, bound); InBand(p, v, bound)
  {
    var (p, v) := Bounce(pos, vel, bound);
    if pos < 0.0 {
      assert 0.0 <= p < vel;
    } else if pos > bound {
      assert bound - Abs(vel) < p <= bound;
    } else {
      assert -Abs(vel) <= p <= bound + Abs(vel);
      if p < 0.0 {
        assert vel < 0.0 && v == -vel;
      } else if p > bound {
        assert vel > 0.0 && v == -vel;
      }
    }
  }

  /** Growing the canvas keeps every coordinate in its band. */
  lemma BandGrows(pos: real, vel: real, bound: real, bound': real)
    requires InBand(pos, vel, bound) && bound <= bound'
    ensures InBand(pos, vel, bound')
  {
  }

  /** The coordinate and velocity after k steps on one axis. */
  function Bounces(pos: real, vel: real, bound: real, k: nat): (real, real)
    decreases k
  {
    if k == 0 then (pos, vel) else
      var (p, v) := Bounce(pos, vel, bound);
      Bounces(p, v, bound, k - 1)
  }

  /**
   * A node left beyond the far edge of a shrunken canvas by more than its
   * speed never comes back: it alternates between two positions, both at
   * or beyond the edge, flipping its velocity on every step.
   */
  lemma {:induction false} Stranded(pos: real, vel: real, bound: real, k: nat)
    requires pos >= bound + Abs(vel)
    ensures Bounces(pos, vel, bound, k) == if k % 2 == 0 then (pos, vel) else (pos + vel, -vel)
    ensures Bounces(pos, vel, bound, k).0 >= bound
  {
    var (p1, v1) := Bounce(pos, vel, bound);
    assert p1 == pos + vel >= bound && v1 == -vel;
    var (p2, v2) := Bounce(p1, v1, bound);
    assert p2 == pos && v2 == vel;
    if k == 1 {
      assert Bounces(pos, vel, bound, 1) == Bounces(p1, v1, bound, 0);
    } else if k > 1 {
      assert Bounces(pos, vel, bound, 2) == Bounces(p2, v2, bound, 0);
      Stranded(pos, vel, bound, k - 2);
      BouncesAdd(pos, vel, bound, 2, k - 2);
    }
  }

  lemma {:induction false} BouncesAdd(pos: real, vel: real, bound: real, j: nat, k: nat)
    ensures Bounces(pos, vel, bound, j + k) == var (p, v) := Bounces(pos, vel, bound, j); Bounces(p, v, bound, k)
    decreases j
  {
    if j > 0 {
      var (p, v) := Bounce(pos, vel, bound);
      BouncesAdd(p, v, bound, j - 1, k);
    }
  }

  /** A node's state is in band on both axes. */
  predicate NodeInBand(n: NodeState, width: real, height: real)
  {
    InBand(n.x, n.vx, width) && InBand(n.y, n.vy, height)
  }

  /** Every node of the field is in band. */
  predicate AllInBand(s: seq<NodeState>, width: real, height: real)
  {
    forall k :: 0 <= k < |s| ==> NodeInBand(s[k], width, height)
  }

  /** `Math.random()`: a draw in [0, 1). */
  predicate IsDraw(r: real)
  {
    0.0 <= r < 1.0
  }

  /** The node built from five draws, in the order `createNodes` makes them. */
  function NewNode(d: seq<real>, width: real, height: real): NodeState
    requires |d| == 5
  {
    NodeState(d[0] * width, d[1] * height, (d[2] - 0.5) * 1.0, (d[3] - 0.5) * 1.0, 2.0 + d[4] * 2.0)
  }

  /** The nodes `createNodes` builds from 5 * NumNodes draws. */
  function Created(rand: seq<real>, width: real, height: real): (r: seq<NodeState>)
    requires |rand| == 5 * NumNodes
    ensures |r| == NumNodes
  {
    seq(NumNodes, k requires 0 <= k < NumNodes => NewNode(rand[5 * k..5 * k + 5], width, height))
  }

  /**
   * Created nodes start inside [0, width) x [0, height) (at 0 on an empty
   * axis), with each velocity component in [-0.5, 0.5) and a radius in [2, 4).
   */
  lemma CreatedBounds(rand: seq<real>, width: real, height: real)
    requires |rand| == 5 * NumNodes && forall k :: 0 <= k < |rand| ==> IsDraw(rand[k])
    requires width >= 0.0 && height >= 0.0
    ensures var s := Created(rand, width, height);
      AllInBand(s, width, height) && forall k :: 0 <= k < NumNodes ==> NewNodeBounds(s[k], width, height)
  {
    var s := Created(rand, width, height);
    forall k | 0 <= k < NumNodes ensures NewNodeBounds(s[k], width, height) {
      var d := rand[5 * k..5 * k + 5];
      assert forall m :: 0 <= m < 5 ==> d[m] == rand[5 * k + m];
      NewNodeInBounds(d, width, height);
    }
  }

  /** The bounds of a freshly created node. */
  predicate NewNodeBounds(n: NodeState, width: real, height: real)
  {
    0.0 <= n.x <= width && (width > 0.0 ==> n.x < width) &&
    0.0 <= n.y <= height && (height > 0.0 ==> n.y < height) &&
    -0.5 <= n.vx < 0.5 && -0.5 <= n.vy < 0.5 &&
    2.0 <= n.radius < 4.0 &&
    NodeInBand(n, width, height)
  }

  lemma NewNodeInBounds(d: seq<real>, width: real, height: real)
    requires |d| == 5 && forall m :: 0 <= m < 5 ==> IsDraw(d[m])
    requires width >= 0.0 && height >= 0.0
    ensures NewNodeBounds(NewNode(d, width, height), width, height)
  {
    ScaleDraw(d[0], width);
    ScaleDraw(d[1], height);
  }

  lemma ScaleDraw(r: real, bound: real)
    requires IsDraw(r) && bound >= 0.0
    ensures 0.0 <= r * bound <= bound && (bound > 0.0 ==> r * bound < bound)
  {
  }

  /** The squared distance between two nodes (the value under Math.sqrt). */
  function Dist2(a: NodeState, b: NodeState): (d2: real)
    ensures d2 >= 0.0
  {
    var dx := a.x - b.x;
    var dy := a.y - b.y;
    dx * dx + dy * dy
  }

  /** The distance test does not depend on which node comes first. */
  lemma Dist2Symmetric(a: NodeState, b: NodeState)
    ensures Dist2(a, b) == Dist2(b, a)
    ensures Close(a, b) <==> Close(b, a)
  {
    assert (a.x - b.x) * (a.x - b.x) == (b.x - a.x) * (b.x - a.x);
    assert (a.y - b.y) * (a.y - b.y) == (b.y - a.y) * (b.y - a.y);
  }

  /** `dist < MAX_DIST`, stated on the square so that no square root is needed. */
  predicate Close(a: NodeState, b: NodeState)
  {
    Dist2(a, b) < MaxDist * MaxDist
  }

  /**
   * For the true distance d (d >= 0, d * d the squared distance) the test
   * on squares is the strict test d < MAX_DIST, and a linked pair gets
   * alpha 1 - d / MAX_DIST in (0, 1].
   */
  lemma ThresholdExact(a: NodeState, b: NodeState, d: real)
    requires d >= 0.0 && d * d == Dist2(a, b)
    ensures Close(a, b) <==> d < MaxDist
    ensures Close(a, b) ==> 0.0 < 1.0 - d / MaxDist <= 1.0
  {
    if d >= MaxDist {
      SquareMono(MaxDist, d);
    } else {
      SquareMono(d, MaxDist);
      assert d / MaxDist < 1.0;
    }
  }

  lemma MulPos(x: real, y: real)
    requires x > 0.0 && y > 0.0
    ensures x * y > 0.0
  {
  }

  lemma SquareMono(a: real, b: real)
    requires 0.0 <= a <= b
    ensures a * a <= b * b && (a < b ==> a * a < b * b)
  {
    assert b * b - a * a == (b - a) * (b + a);
    if a < b {
      MulPos(b - a, b + a);
    }
  }

  /** A line drawn by `connectNodes`: the pair (i, j) and its squared distance. */
  datatype Link = Link(i: nat, j: nat, dist2: real)

  /** The links for pairs (i, i + 1), ..., (i, j - 1), in visiting order. */
  function Row(s: seq<NodeState>, i: nat, j: nat): seq<Link>
    requires i < |s| && j <= |s|
    decreases j
  {
    if j <= i + 1 then []
    else Row(s, i, j - 1) + (if Close(s[i], s[j - 1]) then [Link(i, j - 1, Dist2(s[i], s[j - 1]))] else [])
  }

  /** The links for all pairs whose first node is below i, in visiting order. */
  function Upto(s: seq<NodeState>, i: nat): seq<Link>
    requires i <= |s|
  {
    if i == 0 then [] else Upto(s, i - 1) + Row(s, i - 1, |s|)
  }

  /** All links of one frame. */
  function Links(s: seq<NodeState>): seq<Link>
  {
    Upto(s, |s|)
  }

  /** What a link records is a close pair i < j with its squared distance. */
  predicate Genuine(s: seq<NodeState>, l: Link)
  {
    l.i < l.j < |s| && Close(s[l.i], s[l.j]) && l.dist2 == Dist2(s[l.i], s[l.j])
  }

  /** Strict lexicographic order on pairs: the order of the two loops. */
  predicate Before(a: Link, b: Link)
  {
    a.i < b.i || (a.i == b.i && a.j < b.j)
  }

  /** Links in a row have first index i and second index in (i, j), increasing. */
  lemma {:induction false} RowShape(s: seq<NodeState>, i: nat, j: nat)
    requires i < |s| && j <= |s|
    ensures forall a :: 0 <= a < |Row(s, i, j)| ==> Row(s, i, j)[a].i == i && i < Row(s, i, j)[a].j < j
    ensures forall a, b :: 0 <= a < b < |Row(s, i, j)| ==> Row(s, i, j)[a].j < Row(s, i, j)[b].j
    decreases j
  {
    if j > i + 1 {
      RowShape(s, i, j - 1);
      var u := Row(s, i, j - 1);
      var r := Row(s, i, j);
      if Close(s[i], s[j - 1]) {
        var l := Link(i, j - 1, Dist2(s[i], s[j - 1]));
        assert r == u + [l];
        forall a | 0 <= a < |r| ensures r[a].i == i && i < r[a].j < j && (a < |u| ==> r[a].j < l.j) {
          if a < |u| {
            assert r[a] == u[a];
          } else {
            assert r[a] == l;
          }
        }
        forall a, b | 0 <= a < b < |r| ensures r[a].j < r[b].j {
          if b < |u| {
            assert r[a] == u[a] && r[b] == u[b];
          } else {
            assert r[a] == u[a] && r[b] == l;
          }
        }
      } else {
        assert r == u + [];
        assert r == u;
      }
    }
  }

  /** Links in a row are genuine and cover the close pairs (i, m) with m < j. */
  lemma {:induction false} RowExact(s: seq<NodeState>, i: nat, j: nat)
    requires i < |s| && j <= |s|
    ensures forall l :: l in Row(s, i, j) ==> Genuine(s, l)
    ensures forall m :: i < m < j && Close(s[i], s[m]) ==> Link(i, m, Dist2(s[i], s[m])) in Row(s, i, j)
    decreases j
  {
    if j > i + 1 {
      RowExact(s, i, j - 1);
    }
  }

  /** Links of the first i rows are genuine. */
  lemma {:induction false} UptoGenuine(s: seq<NodeState>, i: nat)
    requires i <= |s|
    ensures forall l :: l in Upto(s, i) ==> Genuine(s, l)
  {
    if i > 0 {
      UptoGenuine(s, i - 1);
      RowExact(s, i - 1, |s|);
    }
  }

  /** Links of the first i rows have their first index below i and come in loop order. */
  lemma {:induction false} UptoSorted(s: seq<NodeState>, i: nat)
    requires i <= |s|
    ensures forall a :: 0 <= a < |Upto(s, i)| ==> Upto(s, i)[a].i < i
    ensures forall a, b :: 0 <= a < b < |Upto(s, i)| ==> Before(Upto(s, i)[a], Upto(s, i)[b])
  {
    if i > 0 {
      UptoSorted(s, i - 1);
      RowShape(s, i - 1, |s|);
      var u, w := Upto(s, i - 1), Row(s, i - 1, |s|);
      var r := u + w;
      assert Upto(s, i) == r;
      forall a, b | 0 <= a < b < |r| ensures Before(r[a], r[b]) {
        if b < |u| {
          assert r[a] == u[a] && r[b] == u[b];
        } else if a < |u| {
          assert r[a] == u[a] && r[b] == w[b - |u|];
        } else {
          assert r[a] == w[a - |u|] && r[b] == w[b - |u|];
        }
      }
      forall a | 0 <= a < |r| ensures r[a].i < i {
        if a < |u| {
          assert r[a] == u[a];
        } else {
          assert r[a] == w[a - |u|];
        }
      }
    }
  }

  /** Every close pair whose first index is below i has its link among the first i rows. */
  lemma {:induction false} UptoCovers(s: seq<NodeState>, i: nat)
    requires i <= |s|
    ensures forall m, n :: 0 <= m < i && m < n < |s| && Close(s[m], s[n]) ==> Link(m, n, Dist2(s[m], s[n])) in Upto(s, i)
  {
    if i > 0 {
      UptoCovers(s, i - 1);
      RowExact(s, i - 1, |s|);
    }
  }

  /**
   * `connectNodes` links exactly the close pairs i < j, each once, in loop
   * order, recording their squared distance.
   */
  lemma LinksExact(s: seq<NodeState>)
    ensures forall l :: l in Links(s) ==> Genuine(s, l)
    ensures forall i, j :: 0 <= i < j < |s| ==> (Close(s[i], s[j]) <==> Link(i, j, Dist2(s[i], s[j])) in Links(s))
    ensures forall a, b :: 0 <= a < b < |Links(s)| ==> Before(Links(s)[a], Links(s)[b])
  {
    UptoGenuine(s, |s|);
    UptoSorted(s, |s|);
    UptoCovers(s, |s|);
    forall i, j | 0 <= i < j < |s| && Link(i, j, Dist2(s[i], s[j])) in Links(s) ensures Close(s[i], s[j]) {
      assert Genuine(s, Link(i, j, Dist2(s[i], s[j])));
    }
  }

  /**
   * Nodes at (0, 0) and (100, 0) are linked, with squared distance 10000;
   * nodes exactly MAX_DIST apart are not.
   */
  lemma LinkExamples()
    ensures var a, b := NodeState(0.0, 0.0, 0.0, 0.0, 2.0), NodeState(100.0, 0.0, 0.0, 0.0, 2.0);
      Links([a, b]) == [Link(0, 1, 10000.0)]
    ensures var a, c := NodeState(0.0, 0.0, 0.0, 0.0, 2.0), NodeState(90.0, 120.0, 0.0, 0.0, 2.0);
      Links([a, c]) == []
  {
    var a, b := NodeState(0.0, 0.0, 0.0, 0.0, 2.0), NodeState(100.0, 0.0, 0.0, 0.0, 2.0);
    assert Dist2(a, b) == 10000.0;
    assert Row([a, b], 0, 2) == [Link(0, 1, 10000.0)];
    assert Row([a, b], 1, 2) == [];
    assert Upto([a, b], 1) == [] + Row([a, b], 0, 2);
    assert Links([a, b]) == Upto([a, b], 1) + Row([a, b], 1, 2);
    var c := NodeState(90.0, 120.0, 0.0, 0.0, 2.0);
    assert Dist2(a, c) == 22500.0;
    assert Row([a, c], 0, 2) == [];
    assert Row([a, c], 1, 2) == [];
    assert Upto([a, c], 1) == [] + Row([a, c], 0, 2);
    assert Links([a, c]) == Upto([a, c], 1) + Row([a, c], 1, 2);
  }

  /**
   * The line between nodes at (0, 0) and (100, 0) is drawn with alpha
   * 1 - 100 / 150 = 1/3: d is their true distance, the root of Dist2.
   */
  lemma AlphaExample(d: real)
    requires d >= 0.0 && d * d == Dist2(NodeState(0.0, 0.0, 0.0, 0.0, 2.0), NodeState(100.0, 0.0, 0.0, 0.0, 2.0))
    ensures d == 100.0 && 1.0 - d / MaxDist == 1.0 / 3.0
  {
    if d < 100.0 {
      SquareMono(d, 100.0);
    } else if d > 100.0 {
      SquareMono(100.0, d);
    }
  }

  /** A node object; `moveNode` changes its fields in place. */
  class Particle {
    var x: real
    var y: real
    var vx: real
    var vy: real
    const radius: real

    constructor (n: NodeState)
      ensures State() == n
    {
      x, y, vx, vy, radius := n.x, n.y, n.vx, n.vy, n.radius;
    }

    function State(): NodeState
      reads this
    {
      NodeState(x, y, vx, vy, radius)
    }
  }

  class Field {
    /** The canvas size. */
    var width: nat
    var height: nat
    var nodes: seq<Particle>
    /** The links drawn by the last frame. */
    var drawn: seq<Link>
    /** Whether a next frame is requested (animationId set and not cancelled). */
    var scheduled: bool

    /** No node object appears twice. */
    ghost predicate Valid()
      reads this
    {
      forall a, b :: 0 <= a < b < |nodes| ==> nodes[a] != nodes[b]
    }

    function States(): seq<NodeState>
      reads this`nodes, nodes
    {
      var ns := nodes;
      seq(|ns|, k reads ns requires 0 <= k < |ns| => ns[k].State())
    }

    /**
     * The constructor and `init`: without a canvas nothing happens; with one
     * the canvas takes the viewport size, the nodes are created from the
     * draws, and the first frame runs.
     */
    constructor (hasCanvas: bool, innerWidth: nat, innerHeight: nat, rand: seq<real>)
      requires |rand| == 5 * NumNodes && forall k :: 0 <= k < |rand| ==> IsDraw(rand[k])
      ensures Valid()
      ensures !hasCanvas ==> nodes == [] && !scheduled && drawn == []
      ensures hasCanvas ==> |nodes| == NumNodes && forall k :: 0 <= k < |nodes| ==> fresh(nodes[k])
      ensures hasCanvas ==> width == innerWidth && height == innerHeight && scheduled
      ensures hasCanvas ==> States() == MoveAll(Created(rand, innerWidth as real, innerHeight as real), width as real, height as real)
      ensures hasCanvas ==> drawn == Links(States())
      ensures hasCanvas ==> AllInBand(States(), width as real, height as real)
    {
      nodes := [];
      drawn := [];
      scheduled := false;
      width, height := 0, 0;
      new;
      if hasCanvas {
        ResizeCanvas(innerWidth, innerHeight);
        CreateNodes(rand);
        CreatedBounds(rand, width as real, height as real);
        Animate();
      }
    }

    /** `resizeCanvas`: only the canvas size changes; the nodes stay where they are. */
    method ResizeCanvas(innerWidth: nat, innerHeight: nat)
      modifies this`width, this`height
      ensures width == innerWidth && height == innerHeight
      ensures States() == old(States())
      ensures old(AllInBand(States(), width as real, height as real)) && old(width) <= width && old(height) <= height
        ==> AllInBand(States(), width as real, height as real)
    {
      ghost var before := width;
      ghost var beforeH := height;
      width := innerWidth;
      height := innerHeight;
      if AllInBand(States(), before as real, beforeH as real) && before <= width && beforeH <= height {
        forall k | 0 <= k < |nodes| ensures NodeInBand(States()[k], width as real, height as real) {
          var n := States()[k];
          BandGrows(n.x, n.vx, before as real, width as real);
          BandGrows(n.y, n.vy, beforeH as real, height as real);
        }
      }
    }

    /** `createNodes`: NumNodes new node objects built from the draws. */
    method CreateNodes(rand: seq<real>)
      requires |rand| == 5 * NumNodes
      modifies this`nodes
      ensures Valid()
      ensures |nodes| == NumNodes && forall k :: 0 <= k < |nodes| ==> fresh(nodes[k])
      ensures States() == Created(rand, width as real, height as real)
    {
      nodes := [];
      for i := 0 to NumNodes
        invariant |nodes| == i && Valid()
        invariant forall k :: 0 <= k < i ==> fresh(nodes[k])
        invariant forall k :: 0 <= k < i ==> nodes[k].State() == NewNode(rand[5 * k..5 * k + 5], width as real, height as real)
      {
        var node := new Particle(NewNode(rand[5 * i..5 * i + 5], width as real, height as real));
        nodes := nodes + [node];
      }
    }

    /** `moveNode`. */
    method MoveNode(node: Particle)
      modifies node
      ensures node.State() == Moved(old(node.State()), width as real, height as real)
    {
      node.x := node.x + node.vx;
      node.y := node.y + node.vy;
      if node.x <= 0.0 || node.x >= width as real {
        node.vx := node.vx * -1.0;
      }
      if node.y <= 0.0 || node.y >= height as real {
        node.vy := node.vy * -1.0;
      }
    }

    /** `connectNodes`: the pairs it draws a line between, in drawing order. */
    method ConnectNodes() returns (links: seq<Link>)
      requires |nodes| == NumNodes
      ensures links == Links(States())
    {
      ghost var s := States();
      links := [];
      for i := 0 to NumNodes
        invariant links == Upto(s, i)
      {
        for j := i + 1 to NumNodes
          invariant links == Upto(s, i) + Row(s, i, j)
        {
          assert nodes[i].State() == s[i] && nodes[j].State() == s[j];
          var dist2 := Dist2(nodes[i].State(), nodes[j].State());
          if dist2 < MaxDist * MaxDist {
            links := links + [Link(i, j, dist2)];
          }
        }
        assert Upto(s, i + 1) == Upto(s, i) + Row(s, i, NumNodes);
      }
    }

    /** One frame of `animate`: move every node, then link the close pairs, then request the next frame. */
    method Animate()
      requires Valid() && |nodes| == NumNodes
      modifies nodes, this`drawn, this`scheduled
      ensures States() == MoveAll(old(States()), width as real, height as real)
      ensures drawn == Links(States()) && scheduled
      ensures old(AllInBand(States(), width as real, height as real)) ==> AllInBand(States(), width as real, height as real)
    {
      ghost var before := States();
      for i := 0 to |nodes|
        invariant forall k :: 0 <= k < i ==> nodes[k].State() == Moved(before[k], width as real, height as real)
        invariant forall k :: i <= k < |nodes| ==> nodes[k].State() == before[k]
      {
        MoveNode(nodes[i]);
      }
      drawn := ConnectNodes();
      scheduled := true;
    }

    /** `destroy`: cancels the requested frame, if any. */
    method Destroy()
      modifies this`scheduled
      ensures !scheduled
    {
      if scheduled {
        scheduled := false;
      }
    }
  }
}
