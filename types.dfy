/** Value and object types shared by the connector layer: a plain point,
    the geometry of a rectangle, the editor's mutable node object and the
    opaque handle of a rendered curve. */
module Types {

  /** A 2D coordinate on the canvas (PlainPoint). */
  datatype Point = Point(x: real, y: real)

  /** The four geometry fields of a fully resolved rectangle, as read at one instant. */
  datatype Rect = Rect(x: real, y: real, width: real, height: real)

  /** A node on the canvas. Its id never changes; its position is changed in
      place by dragging, between calls into the core, which only reads it. */
  class Block {
    const id: string
    var x: real
    var y: real
    var width: real
    var height: real

    constructor (id: string, x: real, y: real, width: real, height: real)
      ensures this.id == id
      ensures Shape() == Rect(x, y, width, height)
    {
      this.id := id;
      this.x := x;
      this.y := y;
      this.width := width;
      this.height := height;
    }

    /** The rectangle this node occupies right now. */
    function Shape(): (r: Rect)
      reads this
    {
      Rect(x, y, width, height)
    }
  }

  /** A rendered curve. The core only compares handles by identity. */
  class Line {
    constructor ()
    {
    }
  }
}
