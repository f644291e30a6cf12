/** Step 6 of the route builder (`calcular_distancias_tiempos`): a distance, a
    travel time and an estimated arrival for every stop of the chained route.
    The first stop costs a fixed start time; every later leg is measured by the
    directions provider when one is configured and answers, and otherwise by
    the straight-line distance at a fixed city speed; every stop adds a fixed
    dwell. Times are real minutes after midnight. */
module Estimation {
  import opened Wrappers
  import opened Points
  import opened Rounding

  /** Minutes charged for reaching the first stop. */
  const StartMinutes: real := 5.0
  /** Minutes spent at every stop (two minutes per child). */
  const DwellMinutes: real := 2.0
  /** Assumed city speed of the straight-line estimate, in km/h. */
  const FallbackKmh: real := 20.0

  /** What the directions provider reports for one leg: the first leg of the
      first route, in metres and seconds. */
  datatype Directions = Directions(meters: nat, seconds: nat)

  /** The directions provider: whether a key is configured, and its reply for
      the leg ending at each stop index (`None` for an error status, a
      time-out or any other failure of the call). */
  datatype Provider = Provider(configured: bool, reply: nat -> Option<Directions>)

  /** A leg's distance in km and its minutes before the dwell is added. */
  datatype Leg = Leg(km: real, minutes: real)

  /** One output record (`ruta_con_datos` entry): the stop's identifiers and
      position, its estimated arrival, and the leg to it rounded as reported. */
  datatype Waypoint = Waypoint(
    confirmationId: int,
    childId: int,
    address: string,
    coord: Coord,
    arrival: real,
    distanceKm: real,
    minutes: int,
    cluster: nat)

  /** `calcular_con_google_maps` on a successful reply: metres to km and
      seconds to minutes. */
  function DirectionsLeg(d: Directions): (l: Leg)
    ensures l.km * 1000.0 == d.meters as real
    ensures l.minutes * 60.0 == d.seconds as real
  {
    Leg(d.meters as real / 1000.0, d.seconds as real / 60.0)
  }

  /** The straight-line estimate: `km` at the fallback speed. */
  function FallbackLeg(km: real): (l: Leg)
    ensures l.km == km
    ensures l.minutes * FallbackKmh == km * 60.0
  {
    Leg(km, km / FallbackKmh * 60.0)
  }

  /** The leg from `route[i - 1]` to `route[i]`, before the dwell. */
  function TravelLeg(dist: DistanceFn, provider: Provider, route: seq<Stop>, i: nat): Leg
    requires 0 < i < |route|
  {
    var straight := Dist(dist, route[i - 1], route[i]);
    if provider.configured then
      match provider.reply(i)
      case Some(d) => DirectionsLeg(d)
      case None => FallbackLeg(straight)
    else FallbackLeg(straight)
  }

  /** Distance and minutes charged to stop `i`, the dwell included. */
  function StopLeg(dist: DistanceFn, provider: Provider, route: seq<Stop>, i: nat): Leg
    requires i < |route|
  {
    if i == 0 then Leg(0.0, StartMinutes + DwellMinutes)
    else
      var t := TravelLeg(dist, provider, route, i);
      Leg(t.km, t.minutes + DwellMinutes)
  }

  /** The legs charged to every stop of the route, in order. */
  function Legs(dist: DistanceFn, provider: Provider, route: seq<Stop>): (legs: seq<Leg>)
    ensures |legs| == |route|
  {
    seq(|route|, i requires 0 <= i < |route| => StopLeg(dist, provider, route, i))
  }

  /** Leg `i` is what stop `i` is charged. */
  lemma LegAt(dist: DistanceFn, provider: Provider, route: seq<Stop>, i: nat)
    requires i < |route|
    ensures Legs(dist, provider, route)[i] == StopLeg(dist, provider, route, i)
  {
  }

  /** Minutes charged to stops `lo .. hi - 1`, unrounded. */
  function Elapsed(legs: seq<Leg>, lo: nat, hi: nat): real
    requires lo <= hi <= |legs|
    decreases hi - lo
  {
    if lo == hi then 0.0 else legs[lo].minutes + Elapsed(legs, lo + 1, hi)
  }

  /** Kilometres charged to stops `lo .. hi - 1`, unrounded. */
  function Travelled(legs: seq<Leg>, lo: nat, hi: nat): real
    requires lo <= hi <= |legs|
    decreases hi - lo
  {
    if lo == hi then 0.0 else legs[lo].km + Travelled(legs, lo + 1, hi)
  }

  /** The record of stop `s`, charged leg `l` and reached at `arrival`: the
      leg is reported rounded, to hundredths of a km and to whole minutes. */
  function Record(s: Stop, l: Leg, arrival: real): Waypoint {
    Waypoint(s.point.confirmationId, s.point.childId, s.point.address, s.point.coord,
             arrival, RoundCents(l.km), RoundHalfEven(l.minutes), s.cluster)
  }

  /** The loop from stop `i` on, the clock standing at `clock`: the clock
      advances by each stop's unrounded minutes before the stop is recorded. */
  function EstimateFrom(route: seq<Stop>, legs: seq<Leg>, i: nat, clock: real): (ws: seq<Waypoint>)
    requires |legs| == |route| && i <= |route|
    ensures |ws| == |route| - i
    decreases |route| - i
  {
    if i == |route| then []
    else
      var arrival := clock + legs[i].minutes;
      [Record(route[i], legs[i], arrival)] + EstimateFrom(route, legs, i + 1, arrival)
  }

  /** `calcular_distancias_tiempos(ruta, hora_inicial, ...)`. */
  function Estimate(dist: DistanceFn, provider: Provider, route: seq<Stop>, departure: real): (ws: seq<Waypoint>)
    ensures |ws| == |route|
  {
    EstimateFrom(route, Legs(dist, provider, route), 0, departure)
  }

  /** Record `k` of the loop started at stop `i` describes stop `i + k`, and
      its arrival is the clock plus every minute charged from stop `i` up to
      and including that stop. */
  lemma {:induction false} EstimateFromRecords(route: seq<Stop>, legs: seq<Leg>, i: nat, clock: real, k: nat)
    requires |legs| == |route| && i + k < |route|
    ensures EstimateFrom(route, legs, i, clock)[k] == Record(route[i + k], legs[i + k], clock + Elapsed(legs, i, i + k + 1))
    decreases k
  {
    var arrival := clock + legs[i].minutes;
    EstimateFromStep(route, legs, i, clock, k);
    if k > 0 {
      EstimateFromRecords(route, legs, i + 1, arrival, k - 1);
      assert clock + Elapsed(legs, i, i + k + 1) == arrival + Elapsed(legs, i + 1, i + k + 1);
    }
  }

  /** One turn of the loop: the first record is stop `i`'s, the rest are the
      loop from stop `i + 1` with the clock advanced by stop `i`'s minutes. */
  lemma EstimateFromStep(route: seq<Stop>, legs: seq<Leg>, i: nat, clock: real, k: nat)
    requires |legs| == |route| && i + k < |route|
    ensures var arrival := clock + legs[i].minutes;
            && (k == 0 ==> EstimateFrom(route, legs, i, clock)[k] == Record(route[i], legs[i], arrival))
            && (k > 0 ==> EstimateFrom(route, legs, i, clock)[k] == EstimateFrom(route, legs, i + 1, arrival)[k - 1])
  {
  }

  /** Record `k` describes `route[k]` with the leg charged to it, reached at
      the departure time plus the minutes charged to stops `0 .. k`. */
  lemma EstimateRecords(dist: DistanceFn, provider: Provider, route: seq<Stop>, departure: real, k: nat)
    requires k < |route|
    ensures var w := Estimate(dist, provider, route, departure)[k];
            var leg := StopLeg(dist, provider, route, k);
            && w.arrival == departure + Elapsed(Legs(dist, provider, route), 0, k + 1)
            && w.distanceKm == RoundCents(leg.km)
            && w.minutes == RoundHalfEven(leg.minutes)
            && w.cluster == route[k].cluster
            && w.coord == route[k].point.coord
            && w.childId == route[k].point.childId
            && w.confirmationId == route[k].point.confirmationId
            && w.address == route[k].point.address
  {
    RecordAt(dist, provider, route, departure, k);
    LegAt(dist, provider, route, k);
  }

  /** Record `k` of `calcular_distancias_tiempos` is stop `k` with its leg. */
  lemma RecordAt(dist: DistanceFn, provider: Provider, route: seq<Stop>, departure: real, k: nat)
    requires k < |route|
    ensures Estimate(dist, provider, route, departure)[k]
              == Record(route[k], Legs(dist, provider, route)[k], departure + Elapsed(Legs(dist, provider, route), 0, k + 1))
  {
    LoopRecordAt(dist, provider, route, departure, k);
  }

  lemma LoopRecordAt(dist: DistanceFn, provider: Provider, route: seq<Stop>, departure: real, k: nat)
    requires k < |route|
    ensures EstimateFrom(route, Legs(dist, provider, route), 0, departure)[k]
              == Record(route[k], Legs(dist, provider, route)[k], departure + Elapsed(Legs(dist, provider, route), 0, k + 1))
  {
    EstimateFromRecords(route, Legs(dist, provider, route), 0, departure, k);
  }

  /** The first stop is charged 0 km and 5 + 2 minutes, whatever the provider. */
  lemma FirstStop(dist: DistanceFn, provider: Provider, route: seq<Stop>, departure: real)
    requires route != []
    ensures var w := Estimate(dist, provider, route, departure)[0];
            && w.distanceKm == 0.0
            && w.minutes == 7
            && w.arrival == departure + 7.0
  {
    EstimateRecords(dist, provider, route, departure, 0);
    RoundInteger(0);
    RoundInteger(7);
  }

  /** Without a provider answer, a later stop is charged the straight-line
      distance from the previous stop and that distance at 20 km/h plus the
      dwell. */
  lemma FallbackStop(dist: DistanceFn, provider: Provider, route: seq<Stop>, i: nat)
    requires 0 < i < |route|
    requires !provider.configured || provider.reply(i).None?
    ensures var l := StopLeg(dist, provider, route, i);
            var d := dist(route[i - 1].point.coord, route[i].point.coord);
            && l.km == d
            && l.minutes == d / 20.0 * 60.0 + 2.0
  {
  }

  /** With a provider answer, a later stop is charged the reported metres as
      km and the reported seconds as minutes, plus the dwell. */
  lemma ProviderStop(dist: DistanceFn, provider: Provider, route: seq<Stop>, i: nat, d: Directions)
    requires 0 < i < |route|
    requires provider.configured && provider.reply(i) == Some(d)
    ensures var l := StopLeg(dist, provider, route, i);
            && l.km == d.meters as real / 1000.0
            && l.minutes == d.seconds as real / 60.0 + 2.0
  {
  }

  /** Minutes charged to a stop are never below the dwell when straight-line
      distances are not negative. */
  lemma StopMinutesAtLeastDwell(dist: DistanceFn, provider: Provider, route: seq<Stop>, i: nat)
    requires i < |route|
    requires forall a, b :: dist(a, b) >= 0.0
    ensures StopLeg(dist, provider, route, i).minutes >= DwellMinutes
    ensures StopLeg(dist, provider, route, i).km >= 0.0
  {
    if i > 0 {
      var straight := Dist(dist, route[i - 1], route[i]);
      assert straight >= 0.0;
    }
  }

  lemma {:induction false} ElapsedSplit(legs: seq<Leg>, lo: nat, hi: nat)
    requires lo < hi <= |legs|
    ensures Elapsed(legs, lo, hi) == Elapsed(legs, lo, hi - 1) + legs[hi - 1].minutes
    decreases hi - lo
  {
    if lo < hi - 1 {
      ElapsedSplit(legs, lo + 1, hi);
    }
  }

  lemma {:induction false} TravelledSplit(legs: seq<Leg>, lo: nat, hi: nat)
    requires lo < hi <= |legs|
    ensures Travelled(legs, lo, hi) == Travelled(legs, lo, hi - 1) + legs[hi - 1].km
    decreases hi - lo
  {
    if lo < hi - 1 {
      TravelledSplit(legs, lo + 1, hi);
    }
  }

  /** Each stop is reached the stop's charged minutes after the one before,
      so, straight-line distances not being negative, at least the dwell
      later. */
  lemma ArrivalsIncrease(dist: DistanceFn, provider: Provider, route: seq<Stop>, departure: real, k: nat)
    requires 0 < k < |route|
    requires forall a, b :: dist(a, b) >= 0.0
    ensures var ws := Estimate(dist, provider, route, departure);
            && ws[k].arrival == ws[k - 1].arrival + StopLeg(dist, provider, route, k).minutes
            && ws[k].arrival >= ws[k - 1].arrival + DwellMinutes
  {
    EstimateRecords(dist, provider, route, departure, k);
    EstimateRecords(dist, provider, route, departure, k - 1);
    ElapsedSplit(Legs(dist, provider, route), 0, k + 1);
    StopMinutesAtLeastDwell(dist, provider, route, k);
  }

  /** Sum of the reported (rounded) distances. */
  function SumKm(ws: seq<Waypoint>): real
    decreases |ws|
  {
    if ws == [] then 0.0 else SumKm(ws[..|ws| - 1]) + ws[|ws| - 1].distanceKm
  }

  /** Sum of the reported (rounded) minutes. */
  function SumMinutes(ws: seq<Waypoint>): int
    decreases |ws|
  {
    if ws == [] then 0 else SumMinutes(ws[..|ws| - 1]) + ws[|ws| - 1].minutes
  }

  /** `round(distancia_total, 2)`: the sum of the rounded leg distances,
      rounded again, which `TotalKmExact` shows changes nothing. */
  function TotalKm(ws: seq<Waypoint>): (km: real)
    ensures SumKm(ws) - 0.005 <= km <= SumKm(ws) + 0.005
  {
    RoundCents(SumKm(ws))
  }

  /** Reported distances in whole hundredths add up to whole hundredths. */
  lemma {:induction false} SumKmWholeCents(ws: seq<Waypoint>)
    requires forall k :: 0 <= k < |ws| ==> WholeCents(ws[k].distanceKm)
    ensures WholeCents(SumKm(ws))
    decreases |ws|
  {
    if ws != [] {
      var init := ws[..|ws| - 1];
      assert forall k :: 0 <= k < |init| ==> init[k] == ws[k];
      SumKmWholeCents(init);
      WholeCentsAdd(SumKm(init), ws[|ws| - 1].distanceKm);
    }
  }

  /** When every reported distance is a whole number of hundredths, as
      `round(distancia_km, 2)` makes it, rounding their sum to hundredths
      changes nothing. */
  lemma TotalKmExact(ws: seq<Waypoint>)
    requires forall k :: 0 <= k < |ws| ==> WholeCents(ws[k].distanceKm)
    ensures TotalKm(ws) == SumKm(ws)
  {
    SumKmWholeCents(ws);
    RoundCentsOfCents(SumKm(ws));
  }

  /** Every record reports its distance in whole hundredths. */
  lemma EstimateWholeCents(dist: DistanceFn, provider: Provider, route: seq<Stop>, departure: real)
    ensures var ws := Estimate(dist, provider, route, departure);
            forall k :: 0 <= k < |ws| ==> WholeCents(ws[k].distanceKm)
  {
    var ws := Estimate(dist, provider, route, departure);
    forall k | 0 <= k < |ws|
      ensures WholeCents(ws[k].distanceKm)
    {
      EstimateRecords(dist, provider, route, departure, k);
    }
  }

  /** `round(tiempo_total)`: the rounded leg minutes add up to an integer,
      which rounding leaves as it is. */
  function TotalMinutes(ws: seq<Waypoint>): (m: int)
    ensures m == SumMinutes(ws)
  {
    RoundInteger(SumMinutes(ws));
    RoundHalfEven(SumMinutes(ws) as real)
  }

  /** Every reported distance is within half a hundredth of the leg's, so the
      first `n` reported distances add up to within half a hundredth per stop
      of the distance charged to those stops. */
  lemma {:induction false} SumKmError(dist: DistanceFn, provider: Provider, route: seq<Stop>, departure: real, n: nat)
    requires n <= |route|
    ensures var ws := Estimate(dist, provider, route, departure);
            var err := SumKm(ws[..n]) - Travelled(Legs(dist, provider, route), 0, n);
            -(n as real) * 0.005 <= err <= n as real * 0.005
    decreases n
  {
    if n > 0 {
      var ws := Estimate(dist, provider, route, departure);
      SumKmError(dist, provider, route, departure, n - 1);
      TravelledSplit(Legs(dist, provider, route), 0, n);
      EstimateRecords(dist, provider, route, departure, n - 1);
      assert ws[..n][..n - 1] == ws[..n - 1];
    }
  }

  /** The reported total distance is within half a hundredth per stop, and one
      more for the final rounding, of the distance actually charged. */
  lemma TotalKmError(dist: DistanceFn, provider: Provider, route: seq<Stop>, departure: real)
    ensures var ws := Estimate(dist, provider, route, departure);
            var err := TotalKm(ws) - Travelled(Legs(dist, provider, route), 0, |route|);
            -(|route| + 1) as real * 0.005 <= err <= (|route| + 1) as real * 0.005
  {
    var ws := Estimate(dist, provider, route, departure);
    SumKmError(dist, provider, route, departure, |route|);
    assert ws[..|route|] == ws;
  }

  /** Every reported minute count is within half a minute of the leg's, so the
      first `n` of them add up to within half a minute per stop of the
      minutes charged to those stops. */
  lemma {:induction false} SumMinutesError(dist: DistanceFn, provider: Provider, route: seq<Stop>, departure: real, n: nat)
    requires n <= |route|
    ensures var ws := Estimate(dist, provider, route, departure);
            var err := SumMinutes(ws[..n]) as real - Elapsed(Legs(dist, provider, route), 0, n);
            -(n as real) * 0.5 <= err <= n as real * 0.5
    decreases n
  {
    if n > 0 {
      var ws := Estimate(dist, provider, route, departure);
      SumMinutesError(dist, provider, route, departure, n - 1);
      ElapsedSplit(Legs(dist, provider, route), 0, n);
      EstimateRecords(dist, provider, route, departure, n - 1);
      assert ws[..n][..n - 1] == ws[..n - 1];
    }
  }

  /** The last stop is reached the total charged minutes after departure, and
      the reported total time is within half a minute per stop of that span. */
  lemma TotalMinutesError(dist: DistanceFn, provider: Provider, route: seq<Stop>, departure: real)
    requires route != []
    ensures var ws := Estimate(dist, provider, route, departure);
            var span := ws[|ws| - 1].arrival - departure;
            && span == Elapsed(Legs(dist, provider, route), 0, |route|)
            && -(|route| as real) * 0.5 <= TotalMinutes(ws) as real - span <= |route| as real * 0.5
  {
    var ws := Estimate(dist, provider, route, departure);
    SumMinutesError(dist, provider, route, departure, |route|);
    EstimateRecords(dist, provider, route, departure, |route| - 1);
    assert ws[..|route|] == ws;
  }
}
