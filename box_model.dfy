/** The box record of `js/box-model.js`: an object whose `start` assigns its
    dimensions and resets its `consumed` flag. The rendering objects it builds
    (geometry, material, mesh) are reduced to the two mesh properties the
    rest of the program reads and writes: its name and its position. */
module Box {
  import opened Types

  class BoxModel {
    /** `dimensions`: `{width, height, depth}`. */
    var dimensions: Dimensions
    /** `consumed`: true while the user has committed to drilling into it. */
    var consumed: bool
    /** `mesh.name`, the cell's identity in the registry. */
    var name: string
    /** `mesh.position`. */
    var position: Vec3
    /** `data`, attached by the caller after `start`. */
    var data: SpendingRecord
    /** `filters`, attached by the caller after `start`. */
    var filters: Filters

    /** `Object.create(BoxModel)`: a blank box before `start` is called. */
    constructor ()
      ensures !consumed && name == "" && position == Origin && filters == map[]
    {
      dimensions := Dimensions(0.0, 0.0, 0.0);
      consumed := false;
      name := "";
      position := Origin;
      data := SpendingRecord("", "", "", None, 0.0);
      filters := map[];
    }

    /** `start(x, y, z, color, data)`: stores the three lengths as width,
        height and depth in that order, clears `consumed` and builds a new
        mesh (unnamed, at the origin). The `data` argument is not stored:
        whatever `data` the box held before is left as it was. */
    method Start(x: real, y: real, z: real, data: SpendingRecord)
      modifies this
      ensures dimensions == Dimensions(x, y, z)
      ensures dimensions.width == x && dimensions.height == y && dimensions.depth == z
      ensures !consumed
      ensures name == "" && position == Origin
      ensures this.data == old(this.data) && filters == old(filters)
    {
      dimensions := Dimensions(x, y, z);
      consumed := false;
      name := "";
      position := Origin;
    }
  }
}
