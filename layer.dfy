/** Layer.js: a named layer holding an ordered list of shapes, which can be hidden. */
module Layers {
  import opened Wrappers
  import opened Seqs
  import opened Shapes

  class Layer {
    /** `null` until `setName` is called. */
    var name: Option<string>
    var shapes: seq<Shape>
    var hidden: bool

    constructor ()
      ensures name == None && shapes == [] && !hidden
    {
      name := None;
      shapes := [];
      hidden := false;
    }

    /** `addShape`: appends the shape. */
    method AddShape(shape: Shape)
      modifies this`shapes
      ensures shapes == old(shapes) + [shape]
    {
      shapes := shapes + [shape];
    }

    /**
     * `removeShape`: `shapes.splice(shapes.indexOf(shape), 1)`. A present shape
     * loses its first occurrence; for an absent one `indexOf` gives -1 and the
     * splice removes the LAST shape.
     */
    method RemoveShape(shape: Shape)
      modifies this`shapes
      ensures shapes == SpliceOut(old(shapes), IndexOf(old(shapes), shape))
      ensures shape in old(shapes) ==> shapes == Without(old(shapes), shape)
      ensures shape !in old(shapes) && old(shapes) != [] ==> shapes == old(shapes)[..|old(shapes)| - 1]
    {
      shapes := SpliceOut(shapes, IndexOf(shapes, shape));
    }

    /** `hide`: sets the flag; hiding a hidden layer changes nothing. */
    method Hide()
      modifies this`hidden
      ensures hidden
    {
      if !hidden {
        hidden := true;
      }
    }

    /** `show`: clears the flag; showing a visible layer changes nothing. */
    method Show()
      modifies this`hidden
      ensures !hidden
    {
      if hidden {
        hidden := false;
      }
    }

    /** `setName`: stores the name. */
    method SetName(newName: string)
      modifies this`name
      ensures name == Some(newName)
    {
      name := Some(newName);
    }

    /** `isHidden`: reports the flag that `hide` and `show` set. */
    method IsHidden() returns (h: bool)
      ensures h == hidden
    {
      h := hidden;
    }
  }
}
