/** The records the route builder works on: pickup points, the destination, and
    pickup points tagged with the cluster they were assigned to. */
module Points {

  /** A (latitude, longitude) pair in degrees. */
  datatype Coord = Coord(lat: real, lon: real)

  /** One confirmed pickup, as the request carries it. */
  datatype PickupPoint = PickupPoint(
    confirmationId: int,
    childId: int,
    childName: string,
    address: string,
    landmark: string,
    coord: Coord)

  /** The school the route ends at. */
  datatype Destination = Destination(schoolId: int, name: string, address: string, coord: Coord)

  /** A pickup point once the route builder has written its `cluster` key. */
  datatype Stop = Stop(point: PickupPoint, cluster: nat)

  /** The great-circle distance in kilometres between two coordinates. The
      Haversine formula is not modelled: every operation takes the distance as a
      parameter, and the argument order of each call is kept. */
  type DistanceFn = (Coord, Coord) -> real

  function Dist(dist: DistanceFn, from: Stop, to: Stop): real {
    dist(from.point.coord, to.point.coord)
  }

  function Latitude(c: Coord): real {
    c.lat
  }

  function Longitude(c: Coord): real {
    c.lon
  }

  /** A stop's latitude: the key of `max` when a tour starts northernmost. */
  function Lat(s: Stop): real {
    Latitude(s.point.coord)
  }
}
