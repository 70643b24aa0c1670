/** The decision ResumeNav takes for each key of `conflist_all`, as a pure function of the key
    and the traffic, and ResumeNav itself as a fold over a snapshot of the list. The class
    method StateBasedCD.Asas.ResumeNav runs the same loop on the ASAS fields and is proved equal
    to this fold. */
module ResumeNavigation {
  import opened Lists
  import opened PairKeys
  import opened Geometry
  import opened Zones

  /** `traf.ap.route[ac].direct(ac, wpname[wp])`: send aircraft ac to its waypoint wp. */
  datatype Directive = Directive(ac: nat, wp: int)

  /** What ResumeNav reads besides the ASAS lists: the traffic and this tick's distances, the
      area registry, the arrival parity of a callsign (`int(ac[2:]) % 2`) and, per aircraft,
      the result of its route's `findact` (-1 when it has no active waypoint). */
  datatype NavContext = NavContext(sc: Scene, af: AreaFilter, parity: string -> int,
                                   findact: seq<int>)

  /** ResumeNav runs only after detect found at least one aircraft. */
  predicate NavOk(ctx: NavContext) {
    |ctx.sc.traf| > 0 && |ctx.findact| == |ctx.sc.traf|
  }

  function Ids(traf: seq<Aircraft>): (ids: seq<string>)
    ensures |ids| == |traf| && forall k :: 0 <= k < |traf| ==> ids[k] == traf[k].id
  {
    seq(|traf|, k requires 0 <= k < |traf| => traf[k].id)
  }

  /** `traf.id2idx(id)`: the index of the aircraft with this callsign, -1 when there is none. */
  function Id2Idx(traf: seq<Aircraft>, id: string): (x: int)
    ensures -1 <= x < |traf|
    ensures x == -1 <==> forall k :: 0 <= k < |traf| ==> traf[k].id != id
    ensures x >= 0 ==> traf[x].id == id
  {
    IndexOf(Ids(traf), id)
  }

  /** Python indexing of an n-element array by -1 reaches its last element. */
  function Wrap(n: nat, x: int): (w: nat)
    requires 0 < n && -1 <= x < n
    ensures w < n && (x >= 0 ==> w == x) && (x < 0 ==> w == n - 1)
  {
    if x < 0 then n + x else x
  }

  /** The values ResumeNav derives for one key: callsigns, indices (-1 when gone), zones of the
      two aircraft (checkZone on the indices, so a missing aircraft gets the zone of the last
      aircraft) and their zone difference. */
  datatype PairView = PairView(ac1: string, ac2: string, id1: int, id2: int,
                               z1: int, z2: int, diff: int)

  function View(ctx: NavContext, key: string): (v: PairView)
    requires NavOk(ctx) && SplitKey(key).Some?
    ensures -1 <= v.id1 < |ctx.sc.traf| && -1 <= v.id2 < |ctx.sc.traf|
    ensures (v.ac1, v.ac2) == SplitKey(key).value
  {
    var n := |ctx.sc.traf|;
    var ac1 := SplitKey(key).value.0;
    var ac2 := SplitKey(key).value.1;
    var id1 := Id2Idx(ctx.sc.traf, ac1);
    var id2 := Id2Idx(ctx.sc.traf, ac2);
    var z1 := ZoneOf(ctx.af, Wrap(n, id1));
    var z2 := ZoneOf(ctx.af, Wrap(n, id2));
    PairView(ac1, ac2, id1, id2, z1, z2, DiffZones(z1, z2, ctx.af))
  }

  /** The zone rules: ignored when either aircraft is in the inner circle, or when both fly the
      same direction from zones more than one apart and neither is outside the zone structure. */
  predicate Suppressed(ctx: NavContext, v: PairView) {
    v.z1 == InnerZone || v.z2 == InnerZone ||
    (v.diff > 1 && ctx.parity(v.ac1) == ctx.parity(v.ac2) && v.z1 != 0 && v.z2 != 0)
  }

  /** The aircraft are moving apart: `dot(d, v2 - v1) > 0` with d from a to b in (lon, lat). */
  predicate PastCpa(sc: Scene, a: nat, b: nat)
    requires a < |sc.traf| && b < |sc.traf|
  {
    var p := sc.traf[a];
    var q := sc.traf[b];
    (q.lon - p.lon) * (q.gseast - p.gseast) + (q.lat - p.lat) * (q.gsnorth - p.gsnorth) > 0.0
  }

  /** Horizontal loss of separation against the resume radius Rm. */
  predicate HLos(sc: Scene, a: nat, b: nat) {
    Dist(sc.geo, a, b) < sc.cfg.Rm
  }

  /** Tracks within 30 degrees while in horizontal LOS. */
  predicate Bouncing(sc: Scene, a: nat, b: nat)
    requires a < |sc.traf| && b < |sc.traf|
  {
    Abs(sc.traf[a].trk - sc.traf[b].trk) < 30.0 && HLos(sc, a, b)
  }

  datatype Verdict = Suppress | Keep | Release

  /** The branch ResumeNav takes for a key. */
  function Decide(ctx: NavContext, key: string): (r: Verdict)
    requires NavOk(ctx) && SplitKey(key).Some?
    ensures r == Keep ==> View(ctx, key).id1 >= 0 && View(ctx, key).id2 >= 0
  {
    var v := View(ctx, key);
    if Suppressed(ctx, v) then Suppress
    else if v.id1 >= 0 && v.id2 >= 0 &&
            (!PastCpa(ctx.sc, v.id1, v.id2) || HLos(ctx.sc, v.id1, v.id2) ||
             Bouncing(ctx.sc, v.id1, v.id2))
    then Keep
    else Release
  }

  /** The resume directive for aircraft a, if it exists and has an active waypoint. */
  function Resume(ctx: NavContext, a: int): seq<Directive>
    requires NavOk(ctx) && a < |ctx.sc.traf|
  {
    if a >= 0 && ctx.findact[a] != -1 then [Directive(a, ctx.findact[a])] else []
  }

  /** What ResumeNav changes: `conflist_all`, `active`, and the directives sent so far. */
  datatype NavState = NavState(list: seq<string>, active: seq<bool>, dirs: seq<Directive>)

  /** The loop body for one key of the snapshot. */
  function NavStep(ctx: NavContext, st: NavState, key: string): (t: NavState)
    requires NavOk(ctx) && SplitKey(key).Some? && |st.active| == |ctx.sc.traf|
    ensures |t.active| == |st.active|
  {
    var n := |ctx.sc.traf|;
    var v := View(ctx, key);
    match Decide(ctx, key)
    case Suppress => st.(active := st.active[Wrap(n, v.id1) := false][Wrap(n, v.id2) := false])
    case Keep => st.(active := st.active[v.id1 := true][v.id2 := true])
    case Release => st.(list := RemoveFirst(st.list, key),
                        dirs := st.dirs + Resume(ctx, v.id1) + Resume(ctx, v.id2))
  }

  ghost predicate AllSplit(keys: seq<string>) {
    forall k :: k in keys ==> SplitKey(k).Some?
  }

  /** The loop over the keys of the snapshot, in order. */
  function NavFold(ctx: NavContext, st: NavState, keys: seq<string>): (t: NavState)
    requires NavOk(ctx) && AllSplit(keys) && |st.active| == |ctx.sc.traf|
    ensures |t.active| == |st.active|
    decreases |keys|
  {
    if keys == [] then st
    else NavStep(ctx, NavFold(ctx, st, keys[..|keys| - 1]), keys[|keys| - 1])
  }

  /** ResumeNav: all flags cleared, then the loop over a snapshot of `conflist_all`. */
  function ResumeNavOf(ctx: NavContext, list: seq<string>): NavState
    requires NavOk(ctx) && AllSplit(list)
  {
    NavFold(ctx, NavState(list, seq(|ctx.sc.traf|, _ => false), []), list)
  }

  /** The keys among `keys` that ResumeNav releases. */
  ghost function ReleasedIn(ctx: NavContext, keys: seq<string>): set<string>
    requires NavOk(ctx) && AllSplit(keys)
  {
    set k | k in keys && Decide(ctx, k) == Release
  }

  /** Only the visited key can leave the list, and only when it is released: after the loop,
      the list is the original one without the released keys, in the original order. */
  lemma {:induction false} NavFoldList(ctx: NavContext, st: NavState, keys: seq<string>)
    requires NavOk(ctx) && AllSplit(keys) && |st.active| == |ctx.sc.traf| && NoDup(st.list)
    ensures NavFold(ctx, st, keys).list == FilterOut(st.list, ReleasedIn(ctx, keys))
    decreases |keys|
  {
    if keys == [] {
      assert ReleasedIn(ctx, keys) == {};
      FilterOutNone(st.list);
    } else {
      var init := keys[..|keys| - 1];
      var k := keys[|keys| - 1];
      assert AllSplit(init);
      NavFoldList(ctx, st, init);
      assert keys == init + [k];
      if Decide(ctx, k) == Release {
        assert ReleasedIn(ctx, keys) == ReleasedIn(ctx, init) + {k};
        RemoveFirstIsFilter(st.list, k, ReleasedIn(ctx, init));
      } else {
        assert ReleasedIn(ctx, keys) == ReleasedIn(ctx, init);
      }
    }
  }

  /** The elements of a non-empty sequence are those of its prefix and its last one. */
  lemma InitLast<T>(s: seq<T>)
    requires s != []
    ensures forall x :: x in s <==> x in s[..|s| - 1] || x == s[|s| - 1]
  {
    assert s == s[..|s| - 1] + [s[|s| - 1]];
  }

  /** After ResumeNav a key stays in `conflist_all` exactly when it was there and was not
      released; suppressed and kept pairs stay; the list stays duplicate-free. */
  lemma ResumeNavList(ctx: NavContext, list: seq<string>)
    requires NavOk(ctx) && AllSplit(list) && NoDup(list)
    ensures var t := ResumeNavOf(ctx, list);
      && NoDup(t.list)
      && (forall k :: k in t.list <==> k in list && Decide(ctx, k) != Release)
      && |t.list| <= |list|
  {
    var st := NavState(list, seq(|ctx.sc.traf|, _ => false), []);
    NavFoldList(ctx, st, list);
    FilterOutNoDup(list, ReleasedIn(ctx, list));
    var t := ResumeNavOf(ctx, list);
    assert SetOf(t.list) == SetOf(list) - ReleasedIn(ctx, list);
    forall k ensures k in t.list <==> k in list && Decide(ctx, k) != Release {
      assert k in t.list <==> k in SetOf(t.list);
    }
  }

  /** Pair key k sets the flag of aircraft a to true / to false. */
  ghost predicate Activates(ctx: NavContext, k: string, a: nat)
    requires NavOk(ctx) && SplitKey(k).Some?
  {
    Decide(ctx, k) == Keep && (View(ctx, k).id1 == a || View(ctx, k).id2 == a)
  }

  ghost predicate Deactivates(ctx: NavContext, k: string, a: nat)
    requires NavOk(ctx) && SplitKey(k).Some?
  {
    var n := |ctx.sc.traf|;
    Decide(ctx, k) == Suppress &&
    (Wrap(n, View(ctx, k).id1) == a || Wrap(n, View(ctx, k).id2) == a)
  }

  /** One step writes the flag of aircraft a when its key keeps or suppresses a pair holding
      it, and leaves it alone otherwise. */
  lemma NavStepActive(ctx: NavContext, p: NavState, k: string, a: nat)
    requires NavOk(ctx) && SplitKey(k).Some? && |p.active| == |ctx.sc.traf| && a < |p.active|
    ensures NavStep(ctx, p, k).active[a] ==
      if Activates(ctx, k, a) then true else if Deactivates(ctx, k, a) then false else p.active[a]
  {
  }

  /** A flag is true after the loop only if it was true before or a kept pair holds the
      aircraft; and a flag set by a kept pair stays true unless a suppressed pair clears it. */
  lemma {:induction false} NavFoldActive(ctx: NavContext, st: NavState, keys: seq<string>, a: nat)
    requires NavOk(ctx) && AllSplit(keys) && |st.active| == |ctx.sc.traf| && a < |st.active|
    ensures var t := NavFold(ctx, st, keys);
      t.active[a] ==> st.active[a] || exists k :: k in keys && Activates(ctx, k, a)
    ensures var t := NavFold(ctx, st, keys);
      ((st.active[a] || exists k :: k in keys && Activates(ctx, k, a)) &&
       (forall k :: k in keys ==> !Deactivates(ctx, k, a))) ==> t.active[a]
    decreases |keys|
  {
    if keys != [] {
      var init := keys[..|keys| - 1];
      var k := keys[|keys| - 1];
      InitLast(keys);
      assert AllSplit(init);
      NavFoldActive(ctx, st, init, a);
      NavStepActive(ctx, NavFold(ctx, st, init), k, a);
    }
  }

  /** After ResumeNav (which starts from all flags cleared) an aircraft is active only if a kept
      pair holds it, and it is active when a kept pair holds it and no suppressed pair clears
      its flag. */
  lemma ResumeNavActive(ctx: NavContext, list: seq<string>, a: nat)
    requires NavOk(ctx) && AllSplit(list) && a < |ctx.sc.traf|
    ensures ResumeNavOf(ctx, list).active[a] ==> exists k :: k in list && Activates(ctx, k, a)
    ensures ((exists k :: k in list && Activates(ctx, k, a)) &&
             (forall k :: k in list ==> !Deactivates(ctx, k, a))) ==> ResumeNavOf(ctx, list).active[a]
  {
    NavFoldActive(ctx, NavState(list, seq(|ctx.sc.traf|, _ => false), []), list, a);
  }

  /** The directives of one released key. */
  ghost predicate DirectedBy(ctx: NavContext, k: string, x: Directive)
    requires NavOk(ctx) && SplitKey(k).Some?
  {
    Decide(ctx, k) == Release && (View(ctx, k).id1 == x.ac || View(ctx, k).id2 == x.ac)
  }

  /** A valid resume directive: a present aircraft, sent to its active waypoint. */
  ghost predicate ValidDirective(ctx: NavContext, x: Directive) {
    x.ac < |ctx.findact| && x.wp == ctx.findact[x.ac] && x.wp != -1
  }

  /** The directives one step sends: those of the two aircraft of a released key. */
  lemma NavStepDirs(ctx: NavContext, p: NavState, k: string)
    requires NavOk(ctx) && SplitKey(k).Some? && |p.active| == |ctx.sc.traf|
    ensures var v := View(ctx, k);
      NavStep(ctx, p, k).dirs ==
      p.dirs + if Decide(ctx, k) == Release then Resume(ctx, v.id1) + Resume(ctx, v.id2) else []
  {
  }

  /** Every directive goes to an aircraft of a released pair that exists and has an active
      waypoint; the directives already sent are kept. */
  lemma {:induction false} NavFoldDirsSound(ctx: NavContext, st: NavState, keys: seq<string>)
    requires NavOk(ctx) && AllSplit(keys) && |st.active| == |ctx.sc.traf|
    ensures var t := NavFold(ctx, st, keys);
      && |st.dirs| <= |t.dirs| && t.dirs[..|st.dirs|] == st.dirs
      && (forall e :: |st.dirs| <= e < |t.dirs| ==>
            ValidDirective(ctx, t.dirs[e]) &&
            exists k :: k in keys && DirectedBy(ctx, k, t.dirs[e]))
    decreases |keys|
  {
    if keys != [] {
      var init := keys[..|keys| - 1];
      var k := keys[|keys| - 1];
      InitLast(keys);
      assert AllSplit(init);
      NavFoldDirsSound(ctx, st, init);
      var p := NavFold(ctx, st, init);
      NavStepDirs(ctx, p, k);
      var t := NavStep(ctx, p, k);
      var added := t.dirs[|p.dirs|..];
      assert t.dirs == p.dirs + added;
      forall e | |st.dirs| <= e < |t.dirs|
        ensures ValidDirective(ctx, t.dirs[e]) &&
                exists k' :: k' in keys && DirectedBy(ctx, k', t.dirs[e])
      {
        if e < |p.dirs| {
          assert t.dirs[e] == p.dirs[e];
        } else {
          assert Decide(ctx, k) == Release;
          ResumeSpec(ctx, View(ctx, k).id1);
          ResumeSpec(ctx, View(ctx, k).id2);
          assert t.dirs[e] in Resume(ctx, View(ctx, k).id1) + Resume(ctx, View(ctx, k).id2);
          assert DirectedBy(ctx, k, t.dirs[e]);
        }
      }
    }
  }

  /** Each aircraft of a released pair that exists and has an active waypoint is sent to it. */
  lemma {:induction false} NavFoldDirsComplete(ctx: NavContext, st: NavState, keys: seq<string>)
    requires NavOk(ctx) && AllSplit(keys) && |st.active| == |ctx.sc.traf|
    ensures var t := NavFold(ctx, st, keys);
      forall k, a ::
        (k in keys && Decide(ctx, k) == Release &&
         (View(ctx, k).id1 == a || View(ctx, k).id2 == a) &&
         0 <= a < |ctx.findact| && ctx.findact[a] != -1) ==>
        Directive(a, ctx.findact[a]) in t.dirs
    decreases |keys|
  {
    if keys != [] {
      var init := keys[..|keys| - 1];
      var k := keys[|keys| - 1];
      InitLast(keys);
      assert AllSplit(init);
      NavFoldDirsComplete(ctx, st, init);
      var p := NavFold(ctx, st, init);
      NavStepDirs(ctx, p, k);
      ResumeSpec(ctx, View(ctx, k).id1);
      ResumeSpec(ctx, View(ctx, k).id2);
    }
  }

  lemma ResumeSpec(ctx: NavContext, a: int)
    requires NavOk(ctx) && a < |ctx.sc.traf|
    ensures forall x :: x in Resume(ctx, a) ==> x.ac == a && ValidDirective(ctx, x)
    ensures a >= 0 && ctx.findact[a] != -1 ==> Directive(a, ctx.findact[a]) in Resume(ctx, a)
  {
  }

  /** The release rule for a pair whose two aircraft both still fly and which the zone rules do
      not suppress: it is released exactly when it is past CPA and not in horizontal LOS
      against Rm; the bouncing test adds nothing, since bouncing implies horizontal LOS. */
  lemma ReleaseRule(ctx: NavContext, key: string)
    requires NavOk(ctx) && SplitKey(key).Some?
    requires !Suppressed(ctx, View(ctx, key))
    requires View(ctx, key).id1 >= 0 && View(ctx, key).id2 >= 0
    ensures var v := View(ctx, key);
      Decide(ctx, key) == Release <==> PastCpa(ctx.sc, v.id1, v.id2) && !HLos(ctx.sc, v.id1, v.id2)
    ensures Decide(ctx, key) != Suppress
  {
  }

  /** A pair one of whose aircraft has been deleted is released, unless the zone rules suppress
      it; a suppressed pair is never released. */
  lemma MissingReleased(ctx: NavContext, key: string)
    requires NavOk(ctx) && SplitKey(key).Some?
    ensures !Suppressed(ctx, View(ctx, key)) && (View(ctx, key).id1 < 0 || View(ctx, key).id2 < 0)
      ==> Decide(ctx, key) == Release
    ensures Suppressed(ctx, View(ctx, key)) <==> Decide(ctx, key) == Suppress
  {
  }

  // A pair whose aircraft has left the traffic. The comments of ResumeNav say such a pair is
  // released and leaves `conflist_all`; as written, the zone rules run first, on the index
  // -1, which reaches the last aircraft. When that aircraft flies in the inner circle, the
  // pair is suppressed on every tick, stays in the list for good, and clears the flag of an
  // aircraft outside the pair.

  /** As written: with the last aircraft in the inner circle, a pair with a gone aircraft is
      suppressed, its key stays, and the last aircraft's flag is cleared. */
  lemma GoneAircraftSuppressed(ctx: NavContext, st: NavState, key: string)
    requires NavOk(ctx) && SplitKey(key).Some? && |st.active| == |ctx.sc.traf|
    requires View(ctx, key).id1 < 0 || View(ctx, key).id2 < 0
    requires ZoneOf(ctx.af, |ctx.sc.traf| - 1) == InnerZone
    ensures Decide(ctx, key) == Suppress
    ensures NavStep(ctx, st, key).list == st.list
    ensures !NavStep(ctx, st, key).active[|ctx.sc.traf| - 1]
  {
  }

  /** One aircraft, AC1, in the inner circle; nothing else is configured. The parity is
      `int(ac[2:]) % 2` on the callsigns of the example. */
  function GoneExample(): NavContext {
    var ac1 := Aircraft("AC1", 0.0, 0.0, 0.0, 0.0, 0.0, 0.0, 0.0, 0.0, 0.0, 0.0);
    var sc := Scene([ac1], (i: nat, j: nat) => PairGeo(0.0, 0.0, 0.0, 0.0, 0.0),
                    Config(1.0, 1.0, 1.0, 1.0), (x: real) => x);
    NavContext(sc, AreaFilter({InnerCircle}, (nm: string, a: nat) => nm == InnerCircle),
               (id: string) => if id == "AC1" then 1 else 0, [-1])
  }

  lemma GoneExampleSplit()
    ensures SplitKey("AC1 AC2") == Some(("AC1", "AC2"))
  {
    var key := "AC1 AC2";
    assert IndexOf(key, ' ') == 3;
    assert key[..3] == "AC1" && key[4..] == "AC2";
  }

  lemma GoneExampleView()
    ensures NavOk(GoneExample()) && SplitKey("AC1 AC2").Some?
    ensures View(GoneExample(), "AC1 AC2").id1 == 0 && View(GoneExample(), "AC1 AC2").id2 == -1
  {
    var ctx := GoneExample();
    GoneExampleSplit();
    assert Ids(ctx.sc.traf) == ["AC1"];
    assert IndexOf(["AC1"], "AC1") == 0;
    assert IndexOf(["AC1"], "AC2") == -1;
  }

  /** The key "AC1 AC2", whose aircraft AC2 has left, is suppressed on this traffic. ResumeNav
      keeps it in `conflist_all`, sends no directive, and clears AC1's flag. */
  lemma GoneExampleKept()
    ensures NavOk(GoneExample()) && SplitKey("AC1 AC2") == Some(("AC1", "AC2"))
    ensures GoneExample().parity("AC1") == 1 && GoneExample().parity("AC2") == 0
    ensures View(GoneExample(), "AC1 AC2").id2 == -1
    ensures Decide(GoneExample(), "AC1 AC2") == Suppress
    ensures ResumeNavOf(GoneExample(), ["AC1 AC2"]) == NavState(["AC1 AC2"], [false], [])
  {
    var ctx := GoneExample();
    var key := "AC1 AC2";
    GoneExampleSplit();
    GoneExampleView();
    assert ZoneOf(ctx.af, 0) == InnerZone;
    assert AllSplit([key]);
    var st := NavState([key], [false], []);
    GoneAircraftSuppressed(ctx, st, key);
    assert seq(|ctx.sc.traf|, _ => false) == [false];
    assert [key][..0] == [];
    assert NavFold(ctx, st, [key]) == NavStep(ctx, NavFold(ctx, st, []), key);
  }

  /** The decision as the comments describe it: a pair with a gone aircraft is released before
      any zone rule is looked at; pairs of present aircraft are decided as before. */
  function DecideIntended(ctx: NavContext, key: string): Verdict
    requires NavOk(ctx) && SplitKey(key).Some?
  {
    var v := View(ctx, key);
    if v.id1 < 0 || v.id2 < 0 then Release else Decide(ctx, key)
  }

  /** The loop body with the intended decision. */
  function NavStepIntended(ctx: NavContext, st: NavState, key: string): (t: NavState)
    requires NavOk(ctx) && SplitKey(key).Some? && |st.active| == |ctx.sc.traf|
    ensures |t.active| == |st.active|
  {
    var v := View(ctx, key);
    if v.id1 < 0 || v.id2 < 0 then
      st.(list := RemoveFirst(st.list, key),
          dirs := st.dirs + Resume(ctx, v.id1) + Resume(ctx, v.id2))
    else NavStep(ctx, st, key)
  }

  function NavFoldIntended(ctx: NavContext, st: NavState, keys: seq<string>): (t: NavState)
    requires NavOk(ctx) && AllSplit(keys) && |st.active| == |ctx.sc.traf|
    ensures |t.active| == |st.active|
    decreases |keys|
  {
    if keys == [] then st
    else NavStepIntended(ctx, NavFoldIntended(ctx, st, keys[..|keys| - 1]), keys[|keys| - 1])
  }

  /** ResumeNav with the intended decision. */
  function ResumeNavIntendedOf(ctx: NavContext, list: seq<string>): NavState
    requires NavOk(ctx) && AllSplit(list)
  {
    NavFoldIntended(ctx, NavState(list, seq(|ctx.sc.traf|, _ => false), []), list)
  }

  /** The intended decision releases every pair with a gone aircraft, suppresses only pairs
      of present aircraft, and agrees with the code whenever both aircraft are present. */
  lemma IntendedDecision(ctx: NavContext, key: string)
    requires NavOk(ctx) && SplitKey(key).Some?
    ensures var v := View(ctx, key);
      && (v.id1 < 0 || v.id2 < 0 ==> DecideIntended(ctx, key) == Release)
      && (DecideIntended(ctx, key) == Suppress ==> v.id1 >= 0 && v.id2 >= 0)
      && (v.id1 >= 0 && v.id2 >= 0 ==> DecideIntended(ctx, key) == Decide(ctx, key))
  {
  }

  /** An intended step writes no flag outside its own pair. */
  lemma NavStepIntendedFrame(ctx: NavContext, st: NavState, key: string, a: nat)
    requires NavOk(ctx) && SplitKey(key).Some? && |st.active| == |ctx.sc.traf| && a < |st.active|
    requires a != View(ctx, key).id1 && a != View(ctx, key).id2
    ensures NavStepIntended(ctx, st, key).active[a] == st.active[a]
  {
  }

  /** An intended step removes the key exactly when the intended decision releases it. */
  lemma NavStepIntendedList(ctx: NavContext, st: NavState, key: string)
    requires NavOk(ctx) && SplitKey(key).Some? && |st.active| == |ctx.sc.traf|
    ensures NavStepIntended(ctx, st, key).list ==
      if DecideIntended(ctx, key) == Release then RemoveFirst(st.list, key) else st.list
  {
  }

  ghost function ReleasedIntendedIn(ctx: NavContext, keys: seq<string>): set<string>
    requires NavOk(ctx) && AllSplit(keys)
  {
    set k | k in keys && DecideIntended(ctx, k) == Release
  }

  lemma {:induction false} NavFoldIntendedList(ctx: NavContext, st: NavState, keys: seq<string>)
    requires NavOk(ctx) && AllSplit(keys) && |st.active| == |ctx.sc.traf| && NoDup(st.list)
    ensures NavFoldIntended(ctx, st, keys).list == FilterOut(st.list, ReleasedIntendedIn(ctx, keys))
    decreases |keys|
  {
    if keys == [] {
      assert ReleasedIntendedIn(ctx, keys) == {};
      FilterOutNone(st.list);
    } else {
      var init := keys[..|keys| - 1];
      var k := keys[|keys| - 1];
      assert AllSplit(init);
      NavFoldIntendedList(ctx, st, init);
      var p := NavFoldIntended(ctx, st, init);
      assert NavFoldIntended(ctx, st, keys) == NavStepIntended(ctx, p, k);
      NavStepIntendedList(ctx, p, k);
      ReleasedIntendedLast(ctx, keys);
      if DecideIntended(ctx, k) == Release {
        assert ReleasedIntendedIn(ctx, keys) == ReleasedIntendedIn(ctx, init) + {k};
        RemoveFirstIsFilter(st.list, k, ReleasedIntendedIn(ctx, init));
      } else {
        assert ReleasedIntendedIn(ctx, keys) == ReleasedIntendedIn(ctx, init);
      }
    }
  }

  lemma ReleasedIntendedLast(ctx: NavContext, keys: seq<string>)
    requires NavOk(ctx) && AllSplit(keys) && keys != []
    ensures AllSplit(keys[..|keys| - 1])
    ensures var k := keys[|keys| - 1];
      ReleasedIntendedIn(ctx, keys) ==
      ReleasedIntendedIn(ctx, keys[..|keys| - 1]) + (if DecideIntended(ctx, k) == Release then {k} else {})
  {
    InitLast(keys);
  }

  /** With the intended decision no key whose aircraft has left survives ResumeNav: a key
      stays exactly when it was listed and both its aircraft are present and not released. */
  lemma ResumeNavIntendedList(ctx: NavContext, list: seq<string>)
    requires NavOk(ctx) && AllSplit(list) && NoDup(list)
    ensures var t := ResumeNavIntendedOf(ctx, list);
      && NoDup(t.list)
      && (forall k :: k in t.list <==> k in list && DecideIntended(ctx, k) != Release)
      && (forall k :: k in t.list ==> View(ctx, k).id1 >= 0 && View(ctx, k).id2 >= 0)
  {
    var st := NavState(list, seq(|ctx.sc.traf|, _ => false), []);
    NavFoldIntendedList(ctx, st, list);
    FilterOutNoDup(list, ReleasedIntendedIn(ctx, list));
    var t := ResumeNavIntendedOf(ctx, list);
    assert SetOf(t.list) == SetOf(list) - ReleasedIntendedIn(ctx, list);
    forall k ensures k in t.list <==> k in list && DecideIntended(ctx, k) != Release {
      assert k in t.list <==> k in SetOf(t.list);
    }
    forall k | k in t.list ensures View(ctx, k).id1 >= 0 && View(ctx, k).id2 >= 0 {
      IntendedDecision(ctx, k);
    }
  }
}
