/** The vectorised part of StateBasedCD.detect: for one ordered pair (i, j) of aircraft, the
    horizontal window from the closest point of approach, the vertical window from the times the
    altitude difference crosses +dh and -dh, their intersection and the conflict flag.
    Bearings, distances and velocity components come from trigonometry and great-circle
    geometry, which are inputs here (`PairGeo`); the square root is a parameter of which only
    the sign facts the detection relies on are known (`SqrtSigns`). */
module Geometry {

  /** Separation parameters of the ASAS object: protection radius R [m], the radius Rm used when
      deciding to resume navigation [m], vertical margin dh [m], lookahead [s]. */
  datatype Config = Config(R: real, Rm: real, dh: real, dtlookahead: real)

  /** A protection volume with no radius or no height is a configuration error. */
  predicate ValidConfig(c: Config) {
    c.R > 0.0 && c.dh > 0.0
  }

  /** One aircraft: true state, and the state others perceive through ADS-B (altitude already
      with its transmission noise, vertical speed). */
  datatype Aircraft = Aircraft(
    id: string,
    lat: real, lon: real, alt: real,
    gs: real, trk: real, vs: real,
    gseast: real, gsnorth: real,
    adsbAlt: real, adsbVs: real)

  /** For the ordered pair (i, j): the distance from i to the perceived position of j [m], noise
      included, without the identity sentinel; j's position relative to i (dx east, dy north);
      and the relative velocity components du, dv. */
  datatype PairGeo = PairGeo(dist: real, dx: real, dy: real, du: real, dv: real)

  /** The geometry matrices, indexed by (own, other). */
  type GeoMatrix = (nat, nat) -> PairGeo

  /** Everything a detection tick reads. */
  datatype Scene = Scene(traf: seq<Aircraft>, geo: GeoMatrix, cfg: Config, sqrt: real -> real)

  /** What the detection needs of `np.sqrt`: it is non-negative on non-negative arguments and
      positive on positive ones (the relative speed it divides by is never zero). */
  ghost predicate SqrtSigns(sqrt: real -> real) {
    forall x :: 0.0 <= x ==> 0.0 <= sqrt(x) && (0.0 < x ==> 0.0 < sqrt(x))
  }

  ghost predicate SceneOk(sc: Scene) {
    ValidConfig(sc.cfg) && SqrtSigns(sc.sqrt)
  }

  function Abs(x: real): real { if x < 0.0 then -x else x }
  function Min(x: real, y: real): real { if x <= y then x else y }
  function Max(x: real, y: real): real { if x >= y then x else y }

  /** Sentinel added on the diagonal of `dist` and `tcpa` (identity matrix times 1e9). */
  const Sentinel: real := 1e9
  /** Window bounds of a pair without horizontal conflict. */
  const NoConflictIn: real := 1e8
  const NoConflictOut: real := -1e8
  /** Floor for |dv|^2 and |dvs|. */
  const Epsilon: real := 1e-6

  function Diag(i: nat, j: nat): real { if i == j then Sentinel else 0.0 }

  /** `np.where(np.abs(dv2) < 1e-6, 1e-6, dv2)` applied to a sum of squares. */
  function FloorDv2(x: real): (r: real)
    requires x >= 0.0
    ensures r >= Epsilon
    ensures x >= Epsilon ==> r == x
  {
    if Abs(x) < Epsilon then Epsilon else x
  }

  /** `np.where(np.abs(dvs) < 1e-6, 1e-6, dvs)`: never zero, but the sign of a tiny difference
      is lost (it becomes +1e-6). */
  function FloorDvs(x: real): (r: real)
    ensures r != 0.0 && Abs(r) >= Epsilon
    ensures Abs(x) >= Epsilon ==> r == x
    ensures Abs(x) < Epsilon ==> r == Epsilon
  {
    if Abs(x) < Epsilon then Epsilon else x
  }

  /** `asas.dist[i, j]`: distance with the identity sentinel. */
  function Dist(geo: GeoMatrix, i: nat, j: nat): real {
    geo(i, j).dist + Diag(i, j)
  }

  /** The horizontal and vertical conflict windows of one ordered pair, and their intersection. */
  datatype Window = Window(
    tcpa: real, dcpa2: real, horConf: bool,
    tinhor: real, touthor: real,
    tinver: real, toutver: real,
    tin: real, tout: real)

  /** The conflict windows of the ordered pair (i, j): time and squared distance at CPA (the
      diagonal carries the sentinel), the horizontal window when the CPA lies within R (wide
      sentinels otherwise), the vertical window from the floored vertical speed difference,
      and their intersection: the later entry and the earlier exit. */
  function PairWindow(sc: Scene, i: nat, j: nat): (w: Window)
    requires SceneOk(sc) && i < |sc.traf| && j < |sc.traf|
    ensures w.tinver <= w.toutver
    ensures w.horConf ==> w.tinhor <= w.touthor
    ensures !w.horConf ==> w.tinhor == NoConflictIn && w.touthor == NoConflictOut
    ensures w.tin <= w.tout ==> w.horConf
  {
    var g := sc.geo(i, j);
    var R := sc.cfg.R;
    var dist := Dist(sc.geo, i, j);
    assert g.du * g.du >= 0.0 && g.dv * g.dv >= 0.0;
    var dv2 := FloorDv2(g.du * g.du + g.dv * g.dv);
    var vrel := sc.sqrt(dv2);
    assert vrel > 0.0;
    var tcpa := -(g.du * g.dx + g.dv * g.dy) / dv2 + Diag(i, j);
    var dcpa2 := dist * dist - tcpa * tcpa * dv2;
    var R2 := R * R;
    var horConf := dcpa2 < R2;
    var dxinhor := sc.sqrt(Max(0.0, R2 - dcpa2));
    var dtinhor := dxinhor / vrel;
    assert dtinhor >= 0.0;
    var tinhor := if horConf then tcpa - dtinhor else NoConflictIn;
    var touthor := if horConf then tcpa + dtinhor else NoConflictOut;
    // dalt[i, j] = alt[j] - adsbalt[i], dvs[i, j] = vs[j] - adsbvs[i] (row/column broadcast)
    var dalt := sc.traf[j].alt - sc.traf[i].adsbAlt;
    var dvs := FloorDvs(sc.traf[j].vs - sc.traf[i].adsbVs);
    var tcrosshi := (dalt + sc.cfg.dh) / -dvs;
    var tcrosslo := (dalt - sc.cfg.dh) / -dvs;
    var tinver := Min(tcrosshi, tcrosslo);
    var toutver := Max(tcrosshi, tcrosslo);
    Window(tcpa, dcpa2, horConf, tinhor, touthor, tinver, toutver,
           Max(tinver, tinhor), Min(toutver, touthor))
  }

  /** `swconfl[i, j]`: horizontal conflict, a non-empty combined window that has not ended and
      starts within the lookahead, and not on the diagonal. */
  function Conflict(sc: Scene, i: nat, j: nat): (b: bool)
    requires SceneOk(sc) && i < |sc.traf| && j < |sc.traf|
    ensures b ==> i != j
    ensures b ==> PairWindow(sc, i, j).tin <= PairWindow(sc, i, j).tout
    ensures b ==> 0.0 < PairWindow(sc, i, j).tout && PairWindow(sc, i, j).tin < sc.cfg.dtlookahead
  {
    var w := PairWindow(sc, i, j);
    w.horConf && w.tin <= w.tout && w.tout > 0.0 && w.tin < sc.cfg.dtlookahead && i != j
  }

  /** The horizontal-conflict factor of `swconfl` is redundant: the sentinel window bounds of a
      pair without horizontal conflict already make its combined window empty. */
  lemma SentinelsSuffice(sc: Scene, i: nat, j: nat)
    requires SceneOk(sc) && i < |sc.traf| && j < |sc.traf|
    ensures Conflict(sc, i, j) <==>
      (var w := PairWindow(sc, i, j);
       w.tin <= w.tout && w.tout > 0.0 && w.tin < sc.cfg.dtlookahead && i != j)
  {
  }

  /** Row i of `np.where(swconfl)`, columns below m. */
  function FlaggedRow(sc: Scene, i: nat, m: nat): (ps: seq<(nat, nat)>)
    requires SceneOk(sc) && i < |sc.traf| && m <= |sc.traf|
    ensures forall k :: 0 <= k < |ps| ==> ps[k].0 == i && ps[k].1 < m && Conflict(sc, i, ps[k].1)
    ensures forall j :: 0 <= j < m && Conflict(sc, i, j) ==> (i, j) in ps
  {
    if m == 0 then []
    else
      FlaggedRow(sc, i, m - 1) + (if Conflict(sc, i, m - 1) then [(i, m - 1)] else [])
  }

  /** `np.where(swconfl)` restricted to the first m rows, in row-major order. */
  function FlaggedRows(sc: Scene, m: nat): (ps: seq<(nat, nat)>)
    requires SceneOk(sc) && m <= |sc.traf|
    ensures forall k :: 0 <= k < |ps| ==>
      ps[k].0 < m && ps[k].1 < |sc.traf| && Conflict(sc, ps[k].0, ps[k].1)
    ensures forall i, j :: 0 <= i < m && 0 <= j < |sc.traf| && Conflict(sc, i, j) ==> (i, j) in ps
  {
    if m == 0 then []
    else FlaggedRows(sc, m - 1) + FlaggedRow(sc, m - 1, |sc.traf|)
  }

  /** The conflicting ordered pairs of a tick, `(iown, ioth) = np.where(swconfl)`. */
  function FlaggedPairs(sc: Scene): (ps: seq<(nat, nat)>)
    requires SceneOk(sc)
    ensures forall k :: 0 <= k < |ps| ==>
      ps[k].0 < |sc.traf| && ps[k].1 < |sc.traf| && ps[k].0 != ps[k].1
  {
    FlaggedRows(sc, |sc.traf|)
  }

  /** A pair is listed exactly when the conflict flag holds for it. */
  lemma FlaggedPairsExact(sc: Scene, i: nat, j: nat)
    requires SceneOk(sc) && i < |sc.traf| && j < |sc.traf|
    ensures (i, j) in FlaggedPairs(sc) <==> Conflict(sc, i, j)
  {
  }
}
