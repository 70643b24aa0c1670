/** The registration loop of StateBasedCD.detect (the loop over the conflicting pairs), stated as
    a pure step on the bookkeeping values it changes and folded over the pairs of one tick. The
    class Asas in StateBasedCD runs the same loop on its fields and is proved equal to this
    fold; the lemmas below say what the fold keeps and what it adds. */
module Registry {
  import opened Lists
  import opened PairKeys
  import opened Geometry

  /** What the loop body computes for one conflicting ordered pair (i, j). */
  datatype PairEval = PairEval(
    i: nat, j: nat,
    ids: (string, string),   // (traf.id[i], traf.id[j]), the entry of confpairs
    key: string,             // the canonical key `combi`
    los: bool,               // hLOS and vLOS
    ih: real, iv: real,      // horizontal and vertical intrusion
    altcpa: real)            // own altitude at the closest point of approach

  function Severity(d: PairEval): real {
    Min(d.ih, d.iv)
  }

  /** The loop body's per-pair values. LOS uses the instantaneous distance `asas.dist[i, j]` and
      the true altitude difference, not the predicted window. */
  function Eval(sc: Scene, i: nat, j: nat): (d: PairEval)
    requires SceneOk(sc) && i < |sc.traf| && j < |sc.traf|
    ensures d.i == i && d.j == j && d.ids == (sc.traf[i].id, sc.traf[j].id)
    ensures d.key == Key(sc.traf[i].id, sc.traf[j].id)
  {
    var own := sc.traf[i];
    var oth := sc.traf[j];
    var hdist := Dist(sc.geo, i, j);
    var vdist := Abs(own.alt - oth.alt);
    PairEval(i, j, (own.id, oth.id), Key(own.id, oth.id),
             hdist < sc.cfg.R && vdist < sc.cfg.dh,
             1.0 - sc.sqrt(hdist) / sc.cfg.R, 1.0 - vdist / sc.cfg.dh,
             own.alt + PairWindow(sc, i, j).tcpa * own.vs)
  }

  /** LOS is a loss of separation now: horizontal distance below R and vertical distance below
      dh at once. Two scenes that agree on these agree on LOS, whatever their predicted windows. */
  lemma LosIsInstantaneous(sc1: Scene, sc2: Scene, i: nat, j: nat)
    requires SceneOk(sc1) && SceneOk(sc2)
    requires i < |sc1.traf| && j < |sc1.traf| && i < |sc2.traf| && j < |sc2.traf|
    requires sc1.cfg == sc2.cfg && sc1.geo(i, j).dist == sc2.geo(i, j).dist
    requires sc1.traf[i].alt == sc2.traf[i].alt && sc1.traf[j].alt == sc2.traf[j].alt
    ensures Eval(sc1, i, j).los == Eval(sc2, i, j).los
    ensures Eval(sc1, i, j).los <==>
      Dist(sc1.geo, i, j) < sc1.cfg.R && Abs(sc1.traf[i].alt - sc1.traf[j].alt) < sc1.cfg.dh
  {
  }

  /** The per-pair values of a list of pairs, in order. */
  function Evals(sc: Scene, ps: seq<(nat, nat)>): (ds: seq<PairEval>)
    requires SceneOk(sc)
    requires forall k :: 0 <= k < |ps| ==> ps[k].0 < |sc.traf| && ps[k].1 < |sc.traf|
    ensures |ds| == |ps|
    ensures forall k :: 0 <= k < |ps| ==> ds[k] == Eval(sc, ps[k].0, ps[k].1)
    decreases |ps|
  {
    if ps == [] then []
    else Evals(sc, ps[..|ps| - 1]) + [Eval(sc, ps[|ps| - 1].0, ps[|ps| - 1].1)]
  }

  /** The fields of the ASAS object that detect writes (lists, counters, severity maxima). */
  datatype Registry = Registry(
    iConf: seq<seq<nat>>, iLos: seq<seq<nat>>,
    confPairs: seq<(string, string)>, altOwnCpa: seq<real>,
    confListAll: seq<string>, confListReallyAll: seq<string>,
    confListExp: seq<string>, confListNow: seq<string>,
    losListAll: seq<string>, losListExp: seq<string>, losListNow: seq<string>,
    confCount: int, losCount: int,
    losMaxSev: map<string, real>, losHMaxSev: map<string, real>, losVMaxSev: map<string, real>)

  /** `experimenttime = simt > 2100 and simt < 5700` */
  predicate ExperimentTime(simt: real) {
    2100.0 < simt < 5700.0
  }

  /** The reset at the start of detect, for n aircraft. */
  function Reset(r: Registry, n: nat): Registry {
    r.(iConf := seq(n, _ => []), iLos := seq(n, _ => []), confPairs := [], altOwnCpa := [],
       losListNow := [], confListNow := [])
  }

  /** The conflict half of the loop body for the idx-th conflicting pair. */
  function ConfStep(r: Registry, idx: nat, d: PairEval, exp: bool): (c: Registry)
    requires d.i < |r.iConf|
    ensures |c.iConf| == |r.iConf|
  {
    var key := d.key;
    r.(iConf := r.iConf[d.i := r.iConf[d.i] + [idx]],
       confPairs := r.confPairs + [d.ids],
       altOwnCpa := r.altOwnCpa + [d.altcpa],
       confListAll := AppendNew(r.confListAll, key),
       confListReallyAll := AppendNew(r.confListReallyAll, key),
       confCount := if key !in r.confListReallyAll then r.confCount + 1 else r.confCount,
       confListExp := if exp then AppendNew(r.confListExp, key) else r.confListExp,
       confListNow := AppendNew(r.confListNow, key))
  }

  /** The LOS half, taken when the pair is in loss of separation; a key new to `LOSlist_all`
      starts its three maxima at 0. */
  function LosStep(c: Registry, idx: nat, d: PairEval, exp: bool): (l: Registry)
    requires d.i < |c.iLos|
    ensures |l.iLos| == |c.iLos|
  {
    var key := d.key;
    var isNew := key !in c.losListAll;
    c.(iLos := c.iLos[d.i := c.iLos[d.i] + [idx]],
       losCount := if isNew then c.losCount + 1 else c.losCount,
       losListAll := AppendNew(c.losListAll, key),
       losMaxSev := if isNew then c.losMaxSev[key := 0.0] else c.losMaxSev,
       losHMaxSev := if isNew then c.losHMaxSev[key := 0.0] else c.losHMaxSev,
       losVMaxSev := if isNew then c.losVMaxSev[key := 0.0] else c.losVMaxSev,
       losListExp := if exp then AppendNew(c.losListExp, key) else c.losListExp,
       losListNow := AppendNew(c.losListNow, key))
  }

  /** The severity update: the three maxima of the key are replaced when the combined severity
      exceeds the stored maximum. */
  function SevStep(l: Registry, d: PairEval): Registry {
    var key := d.key;
    if key in l.losListAll && key in l.losMaxSev && Severity(d) > l.losMaxSev[key] then
      l.(losMaxSev := l.losMaxSev[key := Severity(d)],
         losHMaxSev := l.losHMaxSev[key := d.ih],
         losVMaxSev := l.losVMaxSev[key := d.iv])
    else l
  }

  /** The loop body for the idx-th conflicting pair. */
  function RegStep(r: Registry, idx: nat, d: PairEval, exp: bool): (s: Registry)
    requires d.i < |r.iConf| && d.i < |r.iLos|
    ensures |s.iConf| == |r.iConf| && |s.iLos| == |r.iLos|
  {
    var c := ConfStep(r, idx, d, exp);
    if d.los then SevStep(LosStep(c, idx, d, exp), d) else c
  }

  ghost predicate OwnersFit(r: Registry, ds: seq<PairEval>) {
    forall k :: 0 <= k < |ds| ==> ds[k].i < |r.iConf| && ds[k].i < |r.iLos|
  }

  /** The registration loop over the pairs `ds` of one tick. */
  function RegFold(r: Registry, ds: seq<PairEval>, exp: bool): (s: Registry)
    requires OwnersFit(r, ds)
    ensures |s.iConf| == |r.iConf| && |s.iLos| == |r.iLos|
    decreases |ds|
  {
    if ds == [] then r
    else RegStep(RegFold(r, ds[..|ds| - 1], exp), |ds| - 1, ds[|ds| - 1], exp)
  }

  /** The keys of the pairs, and the keys of the pairs in loss of separation. */
  function KeysOf(ds: seq<PairEval>): seq<string>
    decreases |ds|
  {
    if ds == [] then [] else KeysOf(ds[..|ds| - 1]) + [ds[|ds| - 1].key]
  }

  function LosKeysOf(ds: seq<PairEval>): seq<string>
    decreases |ds|
  {
    if ds == [] then []
    else LosKeysOf(ds[..|ds| - 1]) + (if ds[|ds| - 1].los then [ds[|ds| - 1].key] else [])
  }

  /** The invariant of the bookkeeping: every list is duplicate-free; `conflist_reallyall` is
      the history every other conflict list draws from and `LOSlist_all` that of the LOS lists;
      the counters count the histories; the three severity maps are keyed by the LOS history,
      never negative, and the combined maximum is the smaller of its two parts. */
  ghost predicate RegValid(r: Registry) {
    && NoDup(r.confListAll) && NoDup(r.confListReallyAll) && NoDup(r.confListExp)
    && NoDup(r.confListNow) && NoDup(r.losListAll) && NoDup(r.losListExp) && NoDup(r.losListNow)
    && SetOf(r.confListAll) <= SetOf(r.confListReallyAll)
    && SetOf(r.confListExp) <= SetOf(r.confListReallyAll)
    && SetOf(r.confListNow) <= SetOf(r.confListReallyAll)
    && SetOf(r.losListAll) <= SetOf(r.confListReallyAll)
    && SetOf(r.losListExp) <= SetOf(r.losListAll)
    && SetOf(r.losListNow) <= SetOf(r.losListAll)
    && r.confCount == |r.confListReallyAll| && r.losCount == |r.losListAll|
    && r.losMaxSev.Keys == SetOf(r.losListAll)
    && r.losHMaxSev.Keys == SetOf(r.losListAll)
    && r.losVMaxSev.Keys == SetOf(r.losListAll)
    && forall k :: k in r.losMaxSev ==>
         k in r.losHMaxSev && k in r.losVMaxSev &&
         0.0 <= r.losMaxSev[k] && r.losMaxSev[k] == Min(r.losHMaxSev[k], r.losVMaxSev[k])
  }

  lemma ConfStepValid(r: Registry, idx: nat, d: PairEval, exp: bool)
    requires RegValid(r) && d.i < |r.iConf|
    ensures RegValid(ConfStep(r, idx, d, exp))
    ensures d.key in ConfStep(r, idx, d, exp).confListReallyAll
  {
    var c := ConfStep(r, idx, d, exp);
    assert c.losListAll == r.losListAll && c.losMaxSev == r.losMaxSev;
    assert c.confCount == |c.confListReallyAll|;
  }

  lemma LosStepValid(c: Registry, idx: nat, d: PairEval, exp: bool)
    requires RegValid(c) && d.i < |c.iLos| && d.key in c.confListReallyAll
    ensures RegValid(LosStep(c, idx, d, exp))
    ensures d.key in LosStep(c, idx, d, exp).losMaxSev
  {
    var l := LosStep(c, idx, d, exp);
    var key := d.key;
    assert l.confListReallyAll == c.confListReallyAll;
    assert SetOf(l.losListAll) == SetOf(c.losListAll) + {key};
    if key in c.losListAll {
      assert l.losListAll == c.losListAll;
      assert l.losMaxSev == c.losMaxSev && l.losHMaxSev == c.losHMaxSev;
      assert l.losVMaxSev == c.losVMaxSev;
    } else {
      assert l.losMaxSev.Keys == c.losMaxSev.Keys + {key};
      assert l.losHMaxSev.Keys == c.losHMaxSev.Keys + {key};
      assert l.losVMaxSev.Keys == c.losVMaxSev.Keys + {key};
      SevKept(c, l, key);
    }
  }

  /** A key added with all three maxima at 0 keeps the severity part of the invariant. */
  lemma SevKept(c: Registry, l: Registry, key: string)
    requires forall k :: k in c.losMaxSev ==>
      k in c.losHMaxSev && k in c.losVMaxSev &&
      0.0 <= c.losMaxSev[k] && c.losMaxSev[k] == Min(c.losHMaxSev[k], c.losVMaxSev[k])
    requires l.losMaxSev == c.losMaxSev[key := 0.0] && l.losHMaxSev == c.losHMaxSev[key := 0.0]
    requires l.losVMaxSev == c.losVMaxSev[key := 0.0]
    ensures forall k :: k in l.losMaxSev ==>
      k in l.losHMaxSev && k in l.losVMaxSev &&
      0.0 <= l.losMaxSev[k] && l.losMaxSev[k] == Min(l.losHMaxSev[k], l.losVMaxSev[k])
  {
  }

  lemma SevStepValid(l: Registry, d: PairEval)
    requires RegValid(l)
    ensures RegValid(SevStep(l, d))
    ensures SevStep(l, d).losListAll == l.losListAll
    ensures forall k :: k in l.losMaxSev ==> SevStep(l, d).losMaxSev[k] >= l.losMaxSev[k]
    ensures d.key in l.losMaxSev ==> SevStep(l, d).losMaxSev[d.key] >= Severity(d)
  {
    var key := d.key;
    var s := SevStep(l, d);
    if key in l.losListAll && key in l.losMaxSev && Severity(d) > l.losMaxSev[key] {
      assert s.losMaxSev.Keys == l.losMaxSev.Keys && s.losHMaxSev.Keys == l.losHMaxSev.Keys;
      assert s.losVMaxSev.Keys == l.losVMaxSev.Keys;
      forall k | k in s.losMaxSev
        ensures k in s.losHMaxSev && k in s.losVMaxSev
        ensures 0.0 <= s.losMaxSev[k] && s.losMaxSev[k] == Min(s.losHMaxSev[k], s.losVMaxSev[k])
      {
        if k != key {
          assert s.losMaxSev[k] == l.losMaxSev[k] && s.losHMaxSev[k] == l.losHMaxSev[k];
          assert s.losVMaxSev[k] == l.losVMaxSev[k];
        }
      }
    } else {
      assert s == l;
    }
  }

  lemma RegStepValid(r: Registry, idx: nat, d: PairEval, exp: bool)
    requires RegValid(r) && d.i < |r.iConf| && d.i < |r.iLos|
    ensures RegValid(RegStep(r, idx, d, exp))
  {
    ConfStepValid(r, idx, d, exp);
    var c := ConfStep(r, idx, d, exp);
    if d.los {
      LosStepValid(c, idx, d, exp);
      SevStepValid(LosStep(c, idx, d, exp), d);
    }
  }

  lemma {:induction false} RegFoldValid(r: Registry, ds: seq<PairEval>, exp: bool)
    requires RegValid(r) && OwnersFit(r, ds)
    ensures RegValid(RegFold(r, ds, exp))
    decreases |ds|
  {
    if ds != [] {
      RegFoldValid(r, ds[..|ds| - 1], exp);
      RegStepValid(RegFold(r, ds[..|ds| - 1], exp), |ds| - 1, ds[|ds| - 1], exp);
    }
  }

  /** The fold over a prefix one longer is one more step. */
  lemma RegFoldPrefix(r: Registry, ds: seq<PairEval>, k: nat, exp: bool)
    requires OwnersFit(r, ds) && k < |ds|
    ensures OwnersFit(r, ds[..k]) && OwnersFit(r, ds[..k + 1])
    ensures var s := RegFold(r, ds[..k], exp);
      ds[k].i < |s.iConf| && ds[k].i < |s.iLos| &&
      RegFold(r, ds[..k + 1], exp) == RegStep(s, k, ds[k], exp)
  {
    assert ds[..k + 1][..k] == ds[..k];
  }

  /** What one step does to each list and counter. */
  lemma RegStepLists(r: Registry, idx: nat, d: PairEval, exp: bool)
    requires d.i < |r.iConf| && d.i < |r.iLos|
    ensures var s := RegStep(r, idx, d, exp);
      && s.confListAll == AppendNew(r.confListAll, d.key)
      && s.confListReallyAll == AppendNew(r.confListReallyAll, d.key)
      && s.confListNow == AppendNew(r.confListNow, d.key)
      && s.confListExp == (if exp then AppendNew(r.confListExp, d.key) else r.confListExp)
      && s.losListAll == (if d.los then AppendNew(r.losListAll, d.key) else r.losListAll)
      && s.losListNow == (if d.los then AppendNew(r.losListNow, d.key) else r.losListNow)
      && s.losListExp == (if d.los && exp then AppendNew(r.losListExp, d.key) else r.losListExp)
      && s.confCount - r.confCount == |s.confListReallyAll| - |r.confListReallyAll|
      && s.losCount - r.losCount == |s.losListAll| - |r.losListAll|
  {
    var c := ConfStep(r, idx, d, exp);
    if d.los {
      var l := LosStep(c, idx, d, exp);
      assert SevStep(l, d).losListAll == l.losListAll;
    }
  }

  /** One step never lowers a stored maximum, and a LOS pair leaves the maximum of its key at
      least at its own severity. */
  lemma RegStepSeverity(r: Registry, idx: nat, d: PairEval, exp: bool)
    requires RegValid(r) && d.i < |r.iConf| && d.i < |r.iLos|
    ensures var s := RegStep(r, idx, d, exp);
      && (forall k :: k in r.losMaxSev ==> k in s.losMaxSev && s.losMaxSev[k] >= r.losMaxSev[k])
      && (d.los ==> d.key in s.losMaxSev && s.losMaxSev[d.key] >= Severity(d))
  {
    ConfStepValid(r, idx, d, exp);
    var c := ConfStep(r, idx, d, exp);
    assert c.losMaxSev == r.losMaxSev;
    if d.los {
      LosStepValid(c, idx, d, exp);
      var l := LosStep(c, idx, d, exp);
      assert forall k :: k in c.losMaxSev ==> k in l.losMaxSev && l.losMaxSev[k] >= c.losMaxSev[k];
      SevStepValid(l, d);
    }
  }

  /** One step appends the pair to `confpairs` and its index to the owner's lists. */
  lemma RegStepIndices(r: Registry, idx: nat, d: PairEval, exp: bool)
    requires d.i < |r.iConf| && d.i < |r.iLos|
    ensures var s := RegStep(r, idx, d, exp);
      && s.confPairs == r.confPairs + [d.ids]
      && s.iConf == r.iConf[d.i := r.iConf[d.i] + [idx]]
      && s.iLos == (if d.los then r.iLos[d.i := r.iLos[d.i] + [idx]] else r.iLos)
  {
    var c := ConfStep(r, idx, d, exp);
    if d.los {
      var l := LosStep(c, idx, d, exp);
      assert SevStep(l, d).iLos == l.iLos && SevStep(l, d).iConf == l.iConf;
      assert SevStep(l, d).confPairs == l.confPairs;
    }
  }

  /** Each list grows by the keys of its pairs, in order, without repeating a key; the
      experiment-window lists only inside the window; the counters by the same amount as the
      history lists. */
  lemma {:induction false} RegFoldLists(r: Registry, ds: seq<PairEval>, exp: bool)
    requires OwnersFit(r, ds)
    ensures var s := RegFold(r, ds, exp);
      && s.confListAll == AppendAllNew(r.confListAll, KeysOf(ds))
      && s.confListReallyAll == AppendAllNew(r.confListReallyAll, KeysOf(ds))
      && s.confListNow == AppendAllNew(r.confListNow, KeysOf(ds))
      && s.confListExp == (if exp then AppendAllNew(r.confListExp, KeysOf(ds)) else r.confListExp)
      && s.losListAll == AppendAllNew(r.losListAll, LosKeysOf(ds))
      && s.losListNow == AppendAllNew(r.losListNow, LosKeysOf(ds))
      && s.losListExp == (if exp then AppendAllNew(r.losListExp, LosKeysOf(ds)) else r.losListExp)
      && s.confCount - r.confCount == |s.confListReallyAll| - |r.confListReallyAll|
      && s.losCount - r.losCount == |s.losListAll| - |r.losListAll|
    decreases |ds|
  {
    if ds != [] {
      var init := ds[..|ds| - 1];
      var d := ds[|ds| - 1];
      RegFoldLists(r, init, exp);
      RegStepLists(RegFold(r, init, exp), |ds| - 1, d, exp);
      var ks := KeysOf(ds);
      assert ks[..|ks| - 1] == KeysOf(init);
      var ls := LosKeysOf(ds);
      if d.los {
        assert ls[..|ls| - 1] == LosKeysOf(init);
      } else {
        assert ls == LosKeysOf(init);
      }
    }
  }

  lemma RegFoldNow(r: Registry, ds: seq<PairEval>, exp: bool)
    requires OwnersFit(r, ds)
    ensures RegFold(r, ds, exp).confListNow == AppendAllNew(r.confListNow, KeysOf(ds))
    ensures RegFold(r, ds, exp).losListNow == AppendAllNew(r.losListNow, LosKeysOf(ds))
  {
    RegFoldLists(r, ds, exp);
  }

  /** The counters grow by exactly the number of keys that were new to the history lists. */
  lemma CountersCountNewKeys(r: Registry, ds: seq<PairEval>, exp: bool)
    requires RegValid(r) && OwnersFit(r, ds)
    ensures var s := RegFold(r, ds, exp);
      && s.confCount == r.confCount + |SetOf(KeysOf(ds)) - SetOf(r.confListReallyAll)|
      && s.losCount == r.losCount + |SetOf(LosKeysOf(ds)) - SetOf(r.losListAll)|
  {
    RegFoldLists(r, ds, exp);
    AppendAllNewGrowth(r.confListReallyAll, KeysOf(ds));
    AppendAllNewGrowth(r.losListAll, LosKeysOf(ds));
  }

  /** Every LOS key is also a conflict key of the same pairs. */
  lemma {:induction false} LosKeysAreKeys(ds: seq<PairEval>)
    ensures SetOf(LosKeysOf(ds)) <= SetOf(KeysOf(ds))
    decreases |ds|
  {
    if ds != [] {
      LosKeysAreKeys(ds[..|ds| - 1]);
      SetOfConcat(KeysOf(ds[..|ds| - 1]), [ds[|ds| - 1].key]);
      SetOfConcat(LosKeysOf(ds[..|ds| - 1]),
                  if ds[|ds| - 1].los then [ds[|ds| - 1].key] else []);
    }
  }

  /** LOS is only evaluated for conflicting pairs: a tick that starts with empty per-tick lists
      ends with every key of `LOSlist_now` in `conflist_now`. */
  lemma LosNowInConfNow(r: Registry, ds: seq<PairEval>, exp: bool)
    requires OwnersFit(r, ds) && r.confListNow == [] && r.losListNow == []
    ensures SetOf(RegFold(r, ds, exp).losListNow) <= SetOf(RegFold(r, ds, exp).confListNow)
  {
    RegFoldLists(r, ds, exp);
    AppendAllNewSet(r.confListNow, KeysOf(ds));
    AppendAllNewSet(r.losListNow, LosKeysOf(ds));
    LosKeysAreKeys(ds);
  }

  /** The severity maxima: a stored maximum never decreases, and after the tick it is at least
      the severity of every LOS pair registered under its key. */
  lemma {:induction false} RegFoldSeverity(r: Registry, ds: seq<PairEval>, exp: bool)
    requires RegValid(r) && OwnersFit(r, ds)
    ensures var s := RegFold(r, ds, exp);
      && (forall k :: k in r.losMaxSev ==> k in s.losMaxSev && s.losMaxSev[k] >= r.losMaxSev[k])
      && (forall k :: 0 <= k < |ds| && ds[k].los ==>
            ds[k].key in s.losMaxSev && s.losMaxSev[ds[k].key] >= Severity(ds[k]))
    decreases |ds|
  {
    if ds != [] {
      var init := ds[..|ds| - 1];
      RegFoldSeverity(r, init, exp);
      RegFoldValid(r, init, exp);
      var p := RegFold(r, init, exp);
      RegStepSeverity(p, |ds| - 1, ds[|ds| - 1], exp);
      forall k | 0 <= k < |init| ensures ds[k] == init[k] { }
    }
  }

  /** Two bookkeeping states with the same lists, counters and severity maxima (the per-aircraft
      index lists, `confpairs` and `altownCPA` may differ). */
  ghost predicate SameLists(s: Registry, t: Registry) {
    && t.confListAll == s.confListAll && t.confListReallyAll == s.confListReallyAll
    && t.confListExp == s.confListExp && t.confListNow == s.confListNow
    && t.losListAll == s.losListAll && t.losListExp == s.losListExp
    && t.losListNow == s.losListNow
    && t.confCount == s.confCount && t.losCount == s.losCount
    && t.losMaxSev == s.losMaxSev && t.losHMaxSev == s.losHMaxSev
    && t.losVMaxSev == s.losVMaxSev
  }

  /** A pair in loss of separation whose key is new to `LOSlist_all` starts its three maxima at
      0, and the severity update of the same step then raises them together exactly when its
      severity is positive. */
  lemma RegStepNewLos(r: Registry, idx: nat, d: PairEval, exp: bool)
    requires d.i < |r.iConf| && d.i < |r.iLos| && d.los && d.key !in r.losListAll
    ensures var s := RegStep(r, idx, d, exp);
      && d.key in s.losMaxSev && d.key in s.losHMaxSev && d.key in s.losVMaxSev
      && s.losMaxSev[d.key] == Max(0.0, Severity(d))
      && s.losHMaxSev[d.key] == (if Severity(d) > 0.0 then d.ih else 0.0)
      && s.losVMaxSev[d.key] == (if Severity(d) > 0.0 then d.iv else 0.0)
  {
  }

  /** After one registration of a pair its key is in every list the step appends to, and its
      stored maximum severity is at least the pair's severity. */
  lemma RegStepPlaces(r: Registry, idx: nat, d: PairEval, exp: bool)
    requires RegValid(r) && d.i < |r.iConf| && d.i < |r.iLos|
    ensures var s := RegStep(r, idx, d, exp);
      && d.key in s.confListAll && d.key in s.confListReallyAll && d.key in s.confListNow
      && (exp ==> d.key in s.confListExp)
      && (d.los ==>
            && d.key in s.losListAll && d.key in s.losListNow && (exp ==> d.key in s.losListExp)
            && d.key in s.losMaxSev && Severity(d) <= s.losMaxSev[d.key])
  {
    ConfStepValid(r, idx, d, exp);
    var c := ConfStep(r, idx, d, exp);
    if d.los {
      LosStepValid(c, idx, d, exp);
      var l := LosStep(c, idx, d, exp);
      SevStepValid(l, d);
      assert SevStep(l, d).losListNow == l.losListNow && SevStep(l, d).losListExp == l.losListExp;
    }
  }

  lemma ConfStepAgain(s: Registry, idx: nat, d: PairEval, exp: bool)
    requires d.i < |s.iConf|
    requires d.key in s.confListAll && d.key in s.confListReallyAll && d.key in s.confListNow
    requires exp ==> d.key in s.confListExp
    ensures SameLists(s, ConfStep(s, idx, d, exp))
  {
  }

  lemma LosStepAgain(c: Registry, idx: nat, d: PairEval, exp: bool)
    requires d.i < |c.iLos|
    requires d.key in c.losListAll && d.key in c.losListNow && (exp ==> d.key in c.losListExp)
    ensures SameLists(c, LosStep(c, idx, d, exp))
  {
  }

  lemma SevStepAgain(l: Registry, d: PairEval)
    requires d.key in l.losMaxSev ==> Severity(d) <= l.losMaxSev[d.key]
    ensures SevStep(l, d) == l
  {
  }

  /** Registering the same pair twice in one tick changes no list, counter or maximum beyond
      the first registration (only the per-aircraft index lists, `confpairs` and `altownCPA`
      grow). */
  lemma RegStepIdempotent(r: Registry, idx: nat, idx2: nat, d: PairEval, exp: bool)
    requires RegValid(r) && d.i < |r.iConf| && d.i < |r.iLos|
    ensures var s := RegStep(r, idx, d, exp);
      SameLists(s, RegStep(s, idx2, d, exp))
  {
    RegStepPlaces(r, idx, d, exp);
    var s := RegStep(r, idx, d, exp);
    ConfStepAgain(s, idx2, d, exp);
    var c := ConfStep(s, idx2, d, exp);
    if d.los {
      LosStepAgain(c, idx2, d, exp);
      SevStepAgain(LosStep(c, idx2, d, exp), d);
    }
  }


  /** The identifier pairs of the pairs, in order. */
  function IdsOf(ds: seq<PairEval>): (ids: seq<(string, string)>)
    ensures |ids| == |ds|
    ensures forall e :: 0 <= e < |ds| ==> ids[e] == ds[e].ids
    decreases |ds|
  {
    if ds == [] then [] else IdsOf(ds[..|ds| - 1]) + [ds[|ds| - 1].ids]
  }

  /** The positions e of the pairs owned by aircraft a (and in LOS, if `losOnly`), increasing. */
  function OwnedBy(ds: seq<PairEval>, a: nat, losOnly: bool): seq<nat>
    decreases |ds|
  {
    if ds == [] then []
    else
      var d := ds[|ds| - 1];
      OwnedBy(ds[..|ds| - 1], a, losOnly) + (if d.i == a && (d.los || !losOnly) then [|ds| - 1] else [])
  }

  lemma {:induction false} OwnedBySpec(ds: seq<PairEval>, a: nat, losOnly: bool)
    ensures forall x :: x in OwnedBy(ds, a, losOnly) <==>
      0 <= x < |ds| && ds[x].i == a && (ds[x].los || !losOnly)
    decreases |ds|
  {
    if ds != [] {
      var init := ds[..|ds| - 1];
      OwnedBySpec(init, a, losOnly);
      forall x | 0 <= x < |init| ensures ds[x] == init[x] { }
    }
  }

  /** Starting from the reset state, the per-aircraft index lists point into `confpairs`: entry
      e of `iconf[a]` is the e-th pair and is owned by a; `ilos[a]` holds the LOS ones among
      them. */
  lemma {:induction false} RegFoldIndices(r: Registry, ds: seq<PairEval>, exp: bool)
    requires OwnersFit(r, ds) && r.confPairs == []
    requires forall a :: 0 <= a < |r.iConf| ==> r.iConf[a] == []
    requires forall a :: 0 <= a < |r.iLos| ==> r.iLos[a] == []
    ensures var s := RegFold(r, ds, exp);
      && s.confPairs == IdsOf(ds)
      && (forall a :: 0 <= a < |s.iConf| ==> s.iConf[a] == OwnedBy(ds, a, false))
      && (forall a :: 0 <= a < |s.iLos| ==> s.iLos[a] == OwnedBy(ds, a, true))
    decreases |ds|
  {
    if ds != [] {
      var init := ds[..|ds| - 1];
      RegFoldIndices(r, init, exp);
      var p := RegFold(r, init, exp);
      var d := ds[|ds| - 1];
      RegStepIndices(p, |ds| - 1, d, exp);
      var s := RegFold(r, ds, exp);
      OwnedByStep(p.iConf, s.iConf, ds, false);
      OwnedByStep(p.iLos, s.iLos, ds, true);
    }
  }

  lemma OwnedByStep(pi: seq<seq<nat>>, si: seq<seq<nat>>, ds: seq<PairEval>, losOnly: bool)
    requires ds != []
    requires forall a :: 0 <= a < |pi| ==> pi[a] == OwnedBy(ds[..|ds| - 1], a, losOnly)
    requires ds[|ds| - 1].i < |pi|
    requires si == if ds[|ds| - 1].los || !losOnly
                   then pi[ds[|ds| - 1].i := pi[ds[|ds| - 1].i] + [|ds| - 1]] else pi
    ensures forall a :: 0 <= a < |si| ==> si[a] == OwnedBy(ds, a, losOnly)
  {
  }

  /** The keys among the pairs are the keys of some pair. */
  lemma {:induction false} KeysOfSpec(ds: seq<PairEval>)
    ensures forall k :: k in KeysOf(ds) <==> exists e :: 0 <= e < |ds| && ds[e].key == k
    ensures forall k :: k in LosKeysOf(ds) <==> exists e :: 0 <= e < |ds| && ds[e].los && ds[e].key == k
    decreases |ds|
  {
    if ds != [] {
      var init := ds[..|ds| - 1];
      KeysOfSpec(init);
      forall e | 0 <= e < |init| ensures ds[e] == init[e] { }
    }
  }

  /** The registration of one detection tick: reset, then the loop over the flagged pairs. */
  function TickRegistry(r: Registry, sc: Scene, simt: real): Registry
    requires SceneOk(sc)
  {
    var ds := Evals(sc, FlaggedPairs(sc));
    var r0 := Reset(r, |sc.traf|);
    assert OwnersFit(r0, ds);
    RegFold(r0, ds, ExperimentTime(simt))
  }

  /** k is the key of a conflicting pair of the tick (in LOS if `losOnly`). */
  ghost predicate ConflictKey(sc: Scene, k: string, losOnly: bool)
    requires SceneOk(sc)
  {
    exists i, j :: 0 <= i < |sc.traf| && 0 <= j < |sc.traf| && Conflict(sc, i, j) &&
                   (Eval(sc, i, j).los || !losOnly) && Key(sc.traf[i].id, sc.traf[j].id) == k
  }

  /** The keys of a tick's pairs are the keys of its conflicting pairs; the LOS keys those of
      its conflicting pairs in LOS. */
  lemma TickKeys(sc: Scene)
    requires SceneOk(sc)
    ensures forall k :: k in KeysOf(Evals(sc, FlaggedPairs(sc))) <==> ConflictKey(sc, k, false)
    ensures forall k :: k in LosKeysOf(Evals(sc, FlaggedPairs(sc))) <==> ConflictKey(sc, k, true)
  {
    var ds := Evals(sc, FlaggedPairs(sc));
    KeysOfSpec(ds);
    forall k, losOnly: bool | ConflictKey(sc, k, losOnly)
      ensures exists e :: 0 <= e < |ds| && (ds[e].los || !losOnly) && ds[e].key == k
    {
      ConflictKeyListed(sc, k, losOnly);
    }
    forall k, losOnly: bool | exists e :: 0 <= e < |ds| && (ds[e].los || !losOnly) && ds[e].key == k
      ensures ConflictKey(sc, k, losOnly)
    {
      ListedConflictKey(sc, k, losOnly);
    }
  }

  lemma ConflictKeyListed(sc: Scene, k: string, losOnly: bool)
    requires SceneOk(sc) && ConflictKey(sc, k, losOnly)
    ensures var ds := Evals(sc, FlaggedPairs(sc));
      exists e :: 0 <= e < |ds| && (ds[e].los || !losOnly) && ds[e].key == k
  {
    var i, j :| 0 <= i < |sc.traf| && 0 <= j < |sc.traf| && Conflict(sc, i, j) &&
                (Eval(sc, i, j).los || !losOnly) && Key(sc.traf[i].id, sc.traf[j].id) == k;
    var e := PairListed(sc, i, j);
  }

  /** A conflicting pair has its evaluation among the tick's evaluations. */
  lemma PairListed(sc: Scene, i: nat, j: nat) returns (e: nat)
    requires SceneOk(sc) && i < |sc.traf| && j < |sc.traf| && Conflict(sc, i, j)
    ensures var ds := Evals(sc, FlaggedPairs(sc));
      e < |ds| && ds[e] == Eval(sc, i, j)
  {
    var ps := FlaggedPairs(sc);
    FlaggedPairsExact(sc, i, j);
    e :| 0 <= e < |ps| && ps[e] == (i, j);
  }

  lemma ListedConflictKey(sc: Scene, k: string, losOnly: bool)
    requires SceneOk(sc)
    requires var ds := Evals(sc, FlaggedPairs(sc));
      exists e :: 0 <= e < |ds| && (ds[e].los || !losOnly) && ds[e].key == k
    ensures ConflictKey(sc, k, losOnly)
  {
    var ps := FlaggedPairs(sc);
    var ds := Evals(sc, ps);
    var e :| 0 <= e < |ds| && (ds[e].los || !losOnly) && ds[e].key == k;
    assert Conflict(sc, ps[e].0, ps[e].1);
  }

  /** What a detection tick does to the bookkeeping: the invariant is kept; outside the
      experiment window the `_exp` lists do not change; the counters grow by the number of keys
      new to the histories; no severity maximum decreases. */
  lemma TickRegistryValid(r: Registry, sc: Scene, simt: real)
    requires SceneOk(sc) && RegValid(r)
    ensures var s := TickRegistry(r, sc, simt);
      var ds := Evals(sc, FlaggedPairs(sc));
      && RegValid(s)
      && (!ExperimentTime(simt) ==> s.confListExp == r.confListExp && s.losListExp == r.losListExp)
      && s.confCount == r.confCount + |SetOf(KeysOf(ds)) - SetOf(r.confListReallyAll)|
      && s.losCount == r.losCount + |SetOf(LosKeysOf(ds)) - SetOf(r.losListAll)|
      && (forall k :: k in r.losMaxSev ==> k in s.losMaxSev && s.losMaxSev[k] >= r.losMaxSev[k])
  {
    var ds := Evals(sc, FlaggedPairs(sc));
    assert OwnersFit(Reset(r, |sc.traf|), ds);
    ResetFoldValid(r, |sc.traf|, ds, ExperimentTime(simt));
  }

  /** The reset keeps the invariant: it only empties lists the invariant bounds from above. */
  lemma ResetValid(r: Registry, n: nat)
    requires RegValid(r)
    ensures RegValid(Reset(r, n))
  {
    var r0 := Reset(r, n);
    assert SetOf(r0.confListNow) == {} && SetOf(r0.losListNow) == {};
  }

  /** TickRegistryValid for any pairs, after the reset of the per-tick lists. */
  lemma ResetFoldValid(r: Registry, n: nat, ds: seq<PairEval>, exp: bool)
    requires RegValid(r) && OwnersFit(Reset(r, n), ds)
    ensures var s := RegFold(Reset(r, n), ds, exp);
      && RegValid(s)
      && (!exp ==> s.confListExp == r.confListExp && s.losListExp == r.losListExp)
      && s.confCount == r.confCount + |SetOf(KeysOf(ds)) - SetOf(r.confListReallyAll)|
      && s.losCount == r.losCount + |SetOf(LosKeysOf(ds)) - SetOf(r.losListAll)|
      && (forall k :: k in r.losMaxSev ==> k in s.losMaxSev && s.losMaxSev[k] >= r.losMaxSev[k])
  {
    var r0 := Reset(r, n);
    ResetValid(r, n);
    RegFoldValid(r0, ds, exp);
    RegFoldLists(r0, ds, exp);
    CountersCountNewKeys(r0, ds, exp);
    RegFoldSeverity(r0, ds, exp);
  }

  /** Every entry of the per-aircraft index lists `index` is a position in `pairs`. */
  ghost predicate IndexFits(pairs: seq<(string, string)>, index: seq<seq<nat>>) {
    forall a, e :: 0 <= a < |index| && 0 <= e < |index[a]| ==> index[a][e] < |pairs|
  }

  ghost predicate IndicesOk(r: Registry) {
    IndexFits(r.confPairs, r.iConf) && IndexFits(r.confPairs, r.iLos)
  }

  /** After a tick `iconf` and `ilos` have one list per aircraft, and every entry indexes
      `confpairs`. */
  lemma TickIndicesOk(r: Registry, sc: Scene, simt: real)
    requires SceneOk(sc)
    ensures var s := TickRegistry(r, sc, simt);
      IndicesOk(s) && |s.iConf| == |sc.traf| && |s.iLos| == |sc.traf|
  {
    var ds := Evals(sc, FlaggedPairs(sc));
    var r0 := Reset(r, |sc.traf|);
    assert OwnersFit(r0, ds);
    assert r0.confPairs == [] && |r0.iConf| == |sc.traf| && |r0.iLos| == |sc.traf|;
    FoldIndicesFit(r0, ds, ExperimentTime(simt));
  }

  lemma FoldIndicesFit(r: Registry, ds: seq<PairEval>, exp: bool)
    requires OwnersFit(r, ds) && r.confPairs == []
    requires forall a :: 0 <= a < |r.iConf| ==> r.iConf[a] == []
    requires forall a :: 0 <= a < |r.iLos| ==> r.iLos[a] == []
    ensures IndicesOk(RegFold(r, ds, exp))
  {
    RegFoldIndices(r, ds, exp);
    var s := RegFold(r, ds, exp);
    forall a, e | 0 <= a < |s.iConf| && 0 <= e < |s.iConf[a]| ensures s.iConf[a][e] < |s.confPairs| {
      OwnedBySpec(ds, a, false);
      assert s.iConf[a][e] in OwnedBy(ds, a, false);
    }
    forall a, e | 0 <= a < |s.iLos| && 0 <= e < |s.iLos[a]| ensures s.iLos[a][e] < |s.confPairs| {
      OwnedBySpec(ds, a, true);
      assert s.iLos[a][e] in OwnedBy(ds, a, true);
    }
  }

  /** After a tick, `conflist_now` holds exactly the keys of the conflicting pairs and
      `LOSlist_now` exactly those of the conflicting pairs in LOS, so the second is contained in
      the first. */
  lemma TickNowLists(r: Registry, sc: Scene, simt: real)
    requires SceneOk(sc)
    ensures var s := TickRegistry(r, sc, simt);
      && (forall k :: k in s.confListNow <==> ConflictKey(sc, k, false))
      && (forall k :: k in s.losListNow <==> ConflictKey(sc, k, true))
      && SetOf(s.losListNow) <= SetOf(s.confListNow)
  {
    var ds := Evals(sc, FlaggedPairs(sc));
    var r0 := Reset(r, |sc.traf|);
    assert OwnersFit(r0, ds);
    NowListsFromReset(r0, ds, ExperimentTime(simt));
    TickKeys(sc);
  }

  /** From empty per-tick lists, `conflist_now` ends with the keys of the pairs and
      `LOSlist_now` with the keys of the LOS pairs, the second within the first. */
  lemma NowListsFromReset(r: Registry, ds: seq<PairEval>, exp: bool)
    requires OwnersFit(r, ds) && r.confListNow == [] && r.losListNow == []
    ensures var s := RegFold(r, ds, exp);
      && (forall k :: k in s.confListNow <==> k in KeysOf(ds))
      && (forall k :: k in s.losListNow <==> k in LosKeysOf(ds))
      && SetOf(s.losListNow) <= SetOf(s.confListNow)
  {
    var s := RegFold(r, ds, exp);
    RegFoldNow(r, ds, exp);
    AppendAllNewSet(r.confListNow, KeysOf(ds));
    AppendAllNewSet(r.losListNow, LosKeysOf(ds));
    assert forall k :: k in s.confListNow <==> k in SetOf(s.confListNow);
    assert forall k :: k in s.losListNow <==> k in SetOf(s.losListNow);
    assert forall k :: k in KeysOf(ds) <==> k in SetOf(KeysOf(ds));
    assert forall k :: k in LosKeysOf(ds) <==> k in SetOf(LosKeysOf(ds));
    LosNowInConfNow(r, ds, exp);
  }
}
