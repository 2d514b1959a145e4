/** The simulation volume: a cube of edge length `size` (mm) centred on the origin. */
module Geometry {
  datatype Volume = Volume(size: real)
}
