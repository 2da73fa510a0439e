/** The two record types of the annotator: a pixel position and a committed circle. */
module CustomTypes {

  /** `Point_t`: integer pixel coordinates (x, y). */
  datatype Point = Point(x: int, y: int)

  /** `Circle_t`: a center and a radius. The radius is kept as its square (an integer for
      integer points), so that `sqrt` need not be modelled: the source's float radius is
      the square root of `radiusSq`. */
  datatype Circle = Circle(center: Point, radiusSq: nat)
}
