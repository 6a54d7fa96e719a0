/**
 * The part of a drawable shape that the bookkeeping code looks at: its
 * `shapeName` (used to pick the geometry routine) and its Alberti sid, a
 * string attribute that is empty until LayerManager assigns one. Everything
 * drawn on screen is left out.
 */
module Shapes {

  class Shape {
    const shapeName: string
    var sid: string

    constructor (shapeName: string)
      ensures this.shapeName == shapeName && sid == ""
    {
      this.shapeName := shapeName;
      sid := "";
    }

    /** `setSid`: stores the Alberti sid. */
    method SetSid(newSid: string)
      modifies this`sid
      ensures sid == newSid
    {
      sid := newSid;
    }

    /** A copy of the shape: a new object of the same kind that has no sid yet. */
    method Clone() returns (c: Shape)
      ensures fresh(c)
      ensures c.shapeName == shapeName && c.sid == ""
    {
      c := new Shape(shapeName);
    }
  }
}
