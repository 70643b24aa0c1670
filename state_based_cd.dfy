/** The ASAS object as StateBasedCD sees it: the fields detect and ResumeNav write, and the two
    procedures as methods on them. Each method is proved equal to the pure fold that specifies
    it (Registry.TickRegistry, ResumeNavigation.ResumeNavOf); what those folds keep and add is
    proved in their own modules and carried over to the object by the lemmas at the end. */
module StateBasedCD {
  import opened Lists
  import opened PairKeys
  import opened Geometry
  import opened Zones
  import opened Registry
  import opened ResumeNavigation

  /** Every aircraft callsign is free of spaces, so that the keys built from them split back. */
  predicate CallsignsOk(traf: seq<Aircraft>) {
    forall k :: 0 <= k < |traf| ==> SpaceFree(traf[k].id)
  }

  class Asas {
    var swasas: bool
    var nconf: nat
    /** The conflict bookkeeping attributes (`iconf`, `ilos`, `confpairs`, `altowncpa`, the
        seven key lists, the two counters and the three severity maxima), as one record. */
    var reg: Registry
    /** Per aircraft: follow the ASAS (true) or the autopilot (false). */
    var active: seq<bool>

    /** The bookkeeping invariant, and every key of `conflist_all` splits into two callsigns. */
    ghost predicate Valid()
      reads this
    {
      RegValid(reg) && AllSplit(reg.confListAll)
    }

    /** A fresh ASAS object: empty lists, zero counters, no aircraft. */
    constructor(swasas: bool)
      ensures Valid() && this.swasas == swasas
      ensures reg == Registry([], [], [], [], [], [], [], [], [], [], [], 0, 0, map[], map[], map[])
      ensures nconf == 0 && active == []
    {
      this.swasas := swasas;
      nconf := 0;
      reg := Registry([], [], [], [], [], [], [], [], [], [], [], 0, 0, map[], map[], map[]);
      active := [];
    }

    /** `detect(asas, traf, simt)`, followed by ResumeNav when there is traffic. */
    method Detect(sc: Scene, simt: real, af: AreaFilter, parity: string -> int,
                  findact: seq<int>) returns (dirs: seq<Directive>)
      requires Valid() && SceneOk(sc) && CallsignsOk(sc.traf)
      requires |findact| == |sc.traf| && |active| == |sc.traf|
      modifies this
      ensures Valid() && swasas == old(swasas) && |active| == |old(active)|
      ensures !swasas ==> reg == old(reg) && nconf == old(nconf) && active == old(active) &&
                          dirs == []
      ensures swasas ==>
        var r := TickRegistry(old(reg), sc, simt);
        && nconf == |FlaggedPairs(sc)|
        && (|sc.traf| == 0 ==> reg == r && active == old(active) && dirs == [])
        && (|sc.traf| > 0 ==>
              AllSplit(r.confListAll) &&
              (var nav := ResumeNavOf(NavContext(sc, af, parity, findact), r.confListAll);
               reg == r.(confListAll := nav.list) && active == nav.active && dirs == nav.dirs))
    {
      if !swasas {
        dirs := [];
        return;
      }
      TickValid(reg, sc, simt);
      RegisterConflicts(sc, simt);
      if |sc.traf| == 0 {
        dirs := [];
        return;
      }
      NavKeepsValid(reg, NavContext(sc, af, parity, findact));
      dirs := ResumeNav(NavContext(sc, af, parity, findact));
    }

    /** The bookkeeping part of detect: reset the per-tick lists, then register every
        conflicting ordered pair in `np.where` order. */
    method RegisterConflicts(sc: Scene, simt: real)
      requires RegValid(reg) && SceneOk(sc)
      modifies this`reg, this`nconf
      ensures reg == TickRegistry(old(reg), sc, simt) && nconf == |FlaggedPairs(sc)|
    {
      var n := |sc.traf|;
      reg := reg.(iConf := seq(n, _ => []), iLos := seq(n, _ => []), confPairs := [],
                  altOwnCpa := [], losListNow := [], confListNow := []);
      nconf := 0;
      ghost var r0 := reg;
      assert r0 == Reset(old(reg), n);
      var ps := FlaggedPairs(sc);
      var ds := Evals(sc, ps);
      assert OwnersFit(r0, ds);
      if n == 0 {
        assert ps == FlaggedRows(sc, 0) == [];
        return;
      }
      nconf := |ps|;
      var experimentTime := simt > 2100.0 && simt < 5700.0;
      RegisterPairs(ds, experimentTime);
    }

    /** The registration loop of detect over the evaluated conflicting pairs `ds`. */
    method RegisterPairs(ds: seq<PairEval>, exp: bool)
      requires RegValid(reg) && OwnersFit(reg, ds)
      modifies this`reg
      ensures reg == RegFold(old(reg), ds, exp)
    {
      ghost var r0 := reg;
      for idx := 0 to |ds|
        invariant reg == RegFold(r0, ds[..idx], exp)
      {
        RegFoldPrefix(r0, ds, idx, exp);
        RegFoldValid(r0, ds[..idx], exp);
        RegisterPair(idx, ds[idx], exp);
      }
      assert ds[..|ds|] == ds;
    }

    /** The loop body of detect for the idx-th conflicting pair, evaluated as `d`. */
    method RegisterPair(idx: nat, d: PairEval, exp: bool)
      requires d.i < |reg.iConf| && d.i < |reg.iLos|
      requires forall k :: k in reg.losListAll ==> k in reg.losMaxSev
      modifies this`reg
      ensures reg == RegStep(old(reg), idx, d, exp)
    {
      RegisterConflict(idx, d, exp);
      if d.los {
        RegisterLos(idx, d, exp);
        UpdateSeverity(d);
      }
    }

    /** The conflict half of the loop body: record the pair and add its key to the four
        conflict lists it is not yet in (to `conflist_exp` only within the experiment time). */
    method RegisterConflict(idx: nat, d: PairEval, exp: bool)
      requires d.i < |reg.iConf|
      modifies this`reg
      ensures reg == ConfStep(old(reg), idx, d, exp)
    {
      var combi := d.key;
      reg := reg.(iConf := reg.iConf[d.i := reg.iConf[d.i] + [idx]]);
      reg := reg.(confPairs := reg.confPairs + [d.ids], altOwnCpa := reg.altOwnCpa + [d.altcpa]);
      if combi !in reg.confListAll {
        reg := reg.(confListAll := reg.confListAll + [combi]);
      }
      if combi !in reg.confListReallyAll {
        reg := reg.(confListReallyAll := reg.confListReallyAll + [combi],
                    confCount := reg.confCount + 1);
      }
      if combi !in reg.confListExp && exp {
        reg := reg.(confListExp := reg.confListExp + [combi]);
      }
      if combi !in reg.confListNow {
        reg := reg.(confListNow := reg.confListNow + [combi]);
      }
    }

    /** The LOS half of the loop body, for a pair in loss of separation: a key new to
        `LOSlist_all` is counted and its three maxima start at 0. */
    method RegisterLos(idx: nat, d: PairEval, exp: bool)
      requires d.i < |reg.iLos|
      requires forall k :: k in reg.losListAll ==> k in reg.losMaxSev
      modifies this`reg
      ensures reg == LosStep(old(reg), idx, d, exp)
      ensures d.key in reg.losMaxSev
    {
      var combi := d.key;
      reg := reg.(iLos := reg.iLos[d.i := reg.iLos[d.i] + [idx]]);
      if combi !in reg.losListAll {
        reg := reg.(losCount := reg.losCount + 1, losListAll := reg.losListAll + [combi],
                    losMaxSev := reg.losMaxSev[combi := 0.0],
                    losHMaxSev := reg.losHMaxSev[combi := 0.0],
                    losVMaxSev := reg.losVMaxSev[combi := 0.0]);
      }
      if combi !in reg.losListExp && exp {
        reg := reg.(losListExp := reg.losListExp + [combi]);
      }
      if combi !in reg.losListNow {
        reg := reg.(losListNow := reg.losListNow + [combi]);
      }
    }

    /** The severity update: when the key is in `LOSlist_all` and the combined severity exceeds
        the stored maximum, the three maxima are replaced together; otherwise nothing changes. */
    method UpdateSeverity(d: PairEval)
      requires d.key in reg.losMaxSev
      modifies this`reg
      ensures reg == SevStep(old(reg), d)
    {
      var combi := d.key;
      var severity := Min(d.ih, d.iv);
      var k := IndexOf(reg.losListAll, combi);
      if k >= 0 {
        if severity > reg.losMaxSev[combi] {
          reg := reg.(losMaxSev := reg.losMaxSev[combi := severity],
                      losHMaxSev := reg.losHMaxSev[combi := d.ih],
                      losVMaxSev := reg.losVMaxSev[combi := d.iv]);
        }
      }
    }

    /** `ResumeNav(asas, traf, simt)`: clear every flag, then decide each key of a snapshot of
        `conflist_all`. */
    method ResumeNav(ctx: NavContext) returns (dirs: seq<Directive>)
      requires NavOk(ctx) && AllSplit(reg.confListAll) && |active| == |ctx.sc.traf|
      modifies this`reg, this`active
      ensures var nav := ResumeNavOf(ctx, old(reg.confListAll));
        reg.confListAll == nav.list && active == nav.active && dirs == nav.dirs
      ensures reg == old(reg).(confListAll := reg.confListAll)
    {
      active := seq(|ctx.sc.traf|, _ => false);
      dirs := ResumeKeys(ctx, reg.confListAll);
    }

    /** The loop of ResumeNav over the snapshot `keys` of `conflist_all`. */
    method ResumeKeys(ctx: NavContext, keys: seq<string>) returns (dirs: seq<Directive>)
      requires NavOk(ctx) && AllSplit(keys) && |active| == |ctx.sc.traf|
      modifies this`reg, this`active
      ensures NavState(reg.confListAll, active, dirs) ==
              NavFold(ctx, NavState(old(reg.confListAll), old(active), []), keys)
      ensures reg == old(reg).(confListAll := reg.confListAll)
    {
      ghost var st0 := NavState(reg.confListAll, active, []);
      dirs := [];
      for c := 0 to |keys|
        invariant NavState(reg.confListAll, active, dirs) == NavFold(ctx, st0, keys[..c])
        invariant reg == old(reg).(confListAll := reg.confListAll)
      {
        assert keys[..c + 1][..c] == keys[..c];
        assert AllSplit(keys[..c]);
        dirs := ResumePair(ctx, keys[c], dirs);
      }
      assert keys[..|keys|] == keys;
    }

    /** The loop body of ResumeNav for one key of the snapshot: the branch `Classify` picks,
        then its effect on the flags, the list and the directives. */
    method ResumePair(ctx: NavContext, conflict: string, dirs0: seq<Directive>)
      returns (dirs: seq<Directive>)
      requires NavOk(ctx) && SplitKey(conflict).Some? && |active| == |ctx.sc.traf|
      modifies this`reg, this`active
      ensures NavState(reg.confListAll, active, dirs) ==
              NavStep(ctx, NavState(old(reg.confListAll), old(active), dirs0), conflict)
      ensures reg == old(reg).(confListAll := reg.confListAll)
    {
      var n := |ctx.sc.traf|;
      var verdict, id1, id2 := Classify(ctx, conflict);
      dirs := dirs0;
      if verdict == Suppress {
        active := active[Wrap(n, id1) := false][Wrap(n, id2) := false];
      } else if verdict == Keep {
        active := active[id1 := true][id2 := true];
      } else {
        dirs := SendResume(ctx, id1, id2, dirs0);
        reg := reg.(confListAll := RemoveFirst(reg.confListAll, conflict));
      }
    }
  }

  /** The tests ResumeNav makes for one key, in its order: the zone rules, then (when both
      aircraft still fly) past CPA, horizontal LOS against Rm and bouncing. Returns the branch
      and the two aircraft indices (-1 for an aircraft that is gone). */
  method Classify(ctx: NavContext, conflict: string) returns (verdict: Verdict, id1: int, id2: int)
    requires NavOk(ctx) && SplitKey(conflict).Some?
    ensures verdict == Decide(ctx, conflict)
    ensures id1 == View(ctx, conflict).id1 && id2 == View(ctx, conflict).id2
  {
    var n := |ctx.sc.traf|;
    var acs := SplitKey(conflict).value;
    var ac1 := acs.0;
    var ac2 := acs.1;
    id1 := Id2Idx(ctx.sc.traf, ac1);
    id2 := Id2Idx(ctx.sc.traf, ac2);
    var arrBool1 := ctx.parity(ac1);
    var arrBool2 := ctx.parity(ac2);
    var zones := CheckZone([Wrap(n, id1), Wrap(n, id2)], ctx.af);
    var diffzones := DiffZones(zones[0], zones[1], ctx.af);
    assert View(ctx, conflict) == PairView(ac1, ac2, id1, id2, zones[0], zones[1], diffzones);
    if zones[0] == InnerZone || zones[1] == InnerZone {
      verdict := Suppress;
    } else if (diffzones > 1 && arrBool1 == arrBool2) && (zones[0] != 0 && zones[1] != 0) {
      verdict := Suppress;
    } else if id1 >= 0 && id2 >= 0 {
      var p1 := ctx.sc.traf[id1];
      var p2 := ctx.sc.traf[id2];
      var pastCpa := (p2.lon - p1.lon) * (p2.gseast - p1.gseast) +
                     (p2.lat - p1.lat) * (p2.gsnorth - p1.gsnorth) > 0.0;
      var hdist := Dist(ctx.sc.geo, id1, id2);
      var hLos := hdist < ctx.sc.cfg.Rm;
      var bouncingConflict := Abs(p1.trk - p2.trk) < 30.0 && hLos;
      assert pastCpa == PastCpa(ctx.sc, id1, id2);
      assert bouncingConflict == Bouncing(ctx.sc, id1, id2);
      if !pastCpa || hLos || bouncingConflict {
        verdict := Keep;
      } else {
        verdict := Release;
      }
    } else {
      verdict := Release;
    }
  }

  /** The resume directives of a released key: each aircraft that still flies and has an
      active waypoint is sent to it, the first aircraft first. */
  method SendResume(ctx: NavContext, id1: int, id2: int, dirs0: seq<Directive>)
    returns (dirs: seq<Directive>)
    requires NavOk(ctx) && id1 < |ctx.sc.traf| && id2 < |ctx.sc.traf|
    ensures dirs == dirs0 + Resume(ctx, id1) + Resume(ctx, id2)
  {
    dirs := dirs0;
    if id1 >= 0 {
      var iwpid1 := ctx.findact[id1];
      if iwpid1 != -1 {
        dirs := dirs + [Directive(id1, iwpid1)];
      }
    }
    if id2 >= 0 {
      var iwpid2 := ctx.findact[id2];
      if iwpid2 != -1 {
        dirs := dirs + [Directive(id2, iwpid2)];
      }
    }
  }

  /** A tick keeps the invariant of the object: the bookkeeping invariant, and the keys it adds
      to `conflist_all` are built from callsigns without spaces, so they split back; the keys
      ResumeNav leaves behind are a subset of those. */
  lemma TickValid(r: Registry, sc: Scene, simt: real)
    requires SceneOk(sc) && CallsignsOk(sc.traf) && RegValid(r) && AllSplit(r.confListAll)
    ensures RegValid(TickRegistry(r, sc, simt))
    ensures AllSplit(TickRegistry(r, sc, simt).confListAll)
  {
    TickRegistryValid(r, sc, simt);
    var ds := Evals(sc, FlaggedPairs(sc));
    var r0 := Reset(r, |sc.traf|);
    assert OwnersFit(r0, ds);
    RegFoldLists(r0, ds, ExperimentTime(simt));
    AppendAllNewSet(r0.confListAll, KeysOf(ds));
    var s := TickRegistry(r, sc, simt);
    forall k | k in s.confListAll ensures SplitKey(k).Some? {
      assert k in SetOf(s.confListAll);
      if k !in r.confListAll {
        TickKeySplits(sc, k);
      }
    }
  }

  /** The key of a conflicting pair of callsigns without spaces splits back. */
  lemma TickKeySplits(sc: Scene, k: string)
    requires SceneOk(sc) && CallsignsOk(sc.traf)
    requires k in SetOf(KeysOf(Evals(sc, FlaggedPairs(sc))))
    ensures SplitKey(k).Some?
  {
    TickKeys(sc);
    var i, j :| 0 <= i < |sc.traf| && 0 <= j < |sc.traf| && Conflict(sc, i, j) &&
                Key(sc.traf[i].id, sc.traf[j].id) == k;
    KeySplitRoundTrip(sc.traf[i].id, sc.traf[j].id);
  }

  /** ResumeNav keeps the invariant of the object: it only drops keys from `conflist_all`. */
  lemma NavKeepsValid(r: Registry, ctx: NavContext)
    requires NavOk(ctx) && RegValid(r) && AllSplit(r.confListAll)
    ensures var nav := ResumeNavOf(ctx, r.confListAll);
      RegValid(r.(confListAll := nav.list)) && AllSplit(nav.list)
  {
    ResumeNavList(ctx, r.confListAll);
  }
}
