/**
 The full-screen quad the generator's constructor writes into its vertex
 buffer: six vertices, one position and one texture coordinate each, forming
 two triangles over the unit square.
 */
module Quad {

  /** A 2D coordinate. The constructor only ever stores 0 or 1, so integers are exact. */
  datatype Point = Point(x: int, y: int)

  /** One vertex: a position and its single UV set. */
  datatype Vertex = Vertex(position: Point, uv: Point)

  /** Vertex whose UV equals its position. */
  function Corner(x: int, y: int): Vertex {
    Vertex(Point(x, y), Point(x, y))
  }

  /** The six vertices in buffer order, as the constructor fills them. */
  function UnitQuad(): (q: seq<Vertex>)
    ensures |q| == 6
    ensures forall i :: 0 <= i < |q| ==> q[i].uv == q[i].position
    ensures forall i :: 0 <= i < |q| ==> (q[i].position.x == 0 || q[i].position.x == 1) && (q[i].position.y == 0 || q[i].position.y == 1)
    ensures q[1] == q[4] && q[2] == q[3]
    ensures q[0] == Corner(0, 0) && q[5] == Corner(1, 1)
  {
    [Corner(0, 0), Corner(1, 0), Corner(0, 1), Corner(0, 1), Corner(1, 0), Corner(1, 1)]
  }

  /** The set of vertex positions of a buffer. */
  function Positions(q: seq<Vertex>): set<Point> {
    set i | 0 <= i < |q| :: q[i].position
  }

  /** The quad's positions are exactly the four corners of the unit square. */
  lemma UnitQuadCorners()
    ensures Positions(UnitQuad()) == {Point(0, 0), Point(1, 0), Point(0, 1), Point(1, 1)}
  {
    var q := UnitQuad();
    var corners := {Point(0, 0), Point(1, 0), Point(0, 1), Point(1, 1)};
    forall p | p in Positions(q) ensures p in corners {
      var i :| 0 <= i < |q| && q[i].position == p;
    }
    assert q[0].position in Positions(q);
    assert q[1].position in Positions(q);
    assert q[2].position in Positions(q);
    assert q[5].position in Positions(q);
  }

  /** Three positions that are pairwise distinct. */
  predicate Distinct3(a: Point, b: Point, c: Point) {
    a != b && b != c && a != c
  }

  /**
   The two triangles (vertices 0-2 and 3-5) each join three distinct corners,
   share the diagonal from (1,0) to (0,1), and have their third vertices on
   opposite corners, so together they tile the unit square.
   */
  lemma UnitQuadTriangles()
    ensures var q := UnitQuad();
      && Distinct3(q[0].position, q[1].position, q[2].position)
      && Distinct3(q[3].position, q[4].position, q[5].position)
    ensures var q := UnitQuad();
      && q[1].position == q[4].position == Point(1, 0)
      && q[2].position == q[3].position == Point(0, 1)
    ensures var q := UnitQuad();
      && q[0].position.x + q[5].position.x == 1
      && q[0].position.y + q[5].position.y == 1
  {
  }
}
