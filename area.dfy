/** The experiment-area plugin: the Area object deletes aircraft that leave the area, and before
    it does, takes their conflicts and intrusions out of the ASAS `_now` lists so that their end
    is logged; every update it compares the ASAS lists with the snapshots it took last time and
    emits creation (CRE) and deletion (DEL) events. The traffic is an input (its callsigns, and
    which aircraft the area filter finds inside the area); what the loggers write is not
    modelled, only the events sent to them. */
module AreaPlugin {
  import opened Lists
  import opened PairKeys
  import opened Registry
  import opened StateBasedCD

  /** The events one update sends to a logger: created keys (CRE), then deleted keys (DEL). */
  datatype Events = Events(created: seq<string>, deleted: seq<string>)

  /** The event lists of updateCONFlog / updateINTRlog, from the current ASAS lists (`now`, and
      the history `all`) and the plugin's snapshots of them (`log`, `logAll`): the keys that
      appeared, the keys that disappeared, and every key new to the history that is not already
      a creation, as both a creation and a deletion (it came and went between two updates). */
  function LogEvents(now: seq<string>, log: seq<string>, all: seq<string>, logAll: seq<string>)
    : (ev: Events)
  {
    var created0 := Minus(now, log);
    var created := AppendAllNew(created0, Minus(all, logAll));
    AppendAllNewSet(created0, Minus(all, logAll));
    Events(created, Minus(log, now) + created[|created0|..])
  }

  /** updateCONFlog and updateINTRlog. The events are exactly the keys that entered or left
      the current list, plus those new to the history; each key is created at most once, and
      deleted at most once when the snapshots agree (the current list lies within the
      history); a conflict that began and ended between two updates is both created and
      deleted; the comprehensions come first. */
  lemma LogEventsSpec(now: seq<string>, log: seq<string>, all: seq<string>, logAll: seq<string>)
    requires NoDup(now) && NoDup(all)
    ensures var ev := LogEvents(now, log, all, logAll);
      && SetOf(ev.created) == (SetOf(now) - SetOf(log)) + (SetOf(all) - SetOf(logAll))
      && SetOf(ev.deleted) ==
           (SetOf(log) - SetOf(now)) + ((SetOf(all) - SetOf(logAll)) - (SetOf(now) - SetOf(log)))
      && NoDup(ev.created)
      && (NoDup(log) && SetOf(log) <= SetOf(logAll) ==> NoDup(ev.deleted))
      && (forall k :: k in all && k !in logAll && k !in now ==> k in ev.created && k in ev.deleted)
      && |Minus(now, log)| <= |ev.created| && ev.created[..|Minus(now, log)|] == Minus(now, log)
      && |Minus(log, now)| <= |ev.deleted| && ev.deleted[..|Minus(log, now)|] == Minus(log, now)
  {
    LogEventsCreated(now, log, all, logAll);
    LogEventsDeleted(now, log, all, logAll);
    var ev := LogEvents(now, log, all, logAll);
    forall k | k in all && k !in logAll && k !in now ensures k in ev.created && k in ev.deleted {
      assert k in SetOf(all) - SetOf(logAll) && k !in SetOf(now) - SetOf(log);
      assert k in SetOf(ev.created) && k in SetOf(ev.deleted);
    }
  }

  lemma LogEventsCreated(now: seq<string>, log: seq<string>, all: seq<string>, logAll: seq<string>)
    requires NoDup(now)
    ensures var ev := LogEvents(now, log, all, logAll);
      && SetOf(ev.created) == (SetOf(now) - SetOf(log)) + (SetOf(all) - SetOf(logAll))
      && NoDup(ev.created)
      && |Minus(now, log)| <= |ev.created| && ev.created[..|Minus(now, log)|] == Minus(now, log)
  {
    AppendedTail(Minus(now, log), Minus(all, logAll));
    AppendAllNewSet(Minus(now, log), Minus(all, logAll));
  }

  lemma LogEventsDeleted(now: seq<string>, log: seq<string>, all: seq<string>, logAll: seq<string>)
    requires NoDup(now)
    ensures var ev := LogEvents(now, log, all, logAll);
      && SetOf(ev.deleted) ==
           (SetOf(log) - SetOf(now)) + ((SetOf(all) - SetOf(logAll)) - (SetOf(now) - SetOf(log)))
      && (NoDup(log) && SetOf(log) <= SetOf(logAll) ==> NoDup(ev.deleted))
      && |Minus(log, now)| <= |ev.deleted| && ev.deleted[..|Minus(log, now)|] == Minus(log, now)
  {
    var c0 := Minus(now, log);
    var news := Minus(all, logAll);
    AppendedTail(c0, news);
    var tail := AppendAllNew(c0, news)[|c0|..];
    var d0 := Minus(log, now);
    SetOfConcat(d0, tail);
    if NoDup(log) && SetOf(log) <= SetOf(logAll) {
      NoDupConcat(d0, tail);
    }
    assert (d0 + tail)[..|d0|] == d0;
  }

  /** What AppendAllNew adds to a duplicate-free sequence: the new keys, once each. */
  lemma AppendedTail(c0: seq<string>, news: seq<string>)
    requires NoDup(c0)
    ensures var c := AppendAllNew(c0, news);
      && |c0| <= |c| && c == c0 + c[|c0|..] && NoDup(c)
      && SetOf(c[|c0|..]) == SetOf(news) - SetOf(c0) && NoDup(c[|c0|..])
  {
    var c := AppendAllNew(c0, news);
    AppendAllNewSet(c0, news);
    var tail := c[|c0|..];
    assert c == c0 + tail;
    SetOfConcat(c0, tail);
    forall x | x in tail ensures x !in c0 {
      var e :| 0 <= e < |tail| && tail[e] == x;
      assert c[|c0| + e] == x;
    }
    forall i, j | 0 <= i < j < |tail| ensures tail[i] != tail[j] {
      assert tail[i] == c[|c0| + i] && tail[j] == c[|c0| + j];
    }
  }

  /** An update in which nothing changed since the last one sends no event. */
  lemma LogEventsQuiet(now: seq<string>, all: seq<string>)
    ensures LogEvents(now, now, all, all) == Events([], [])
  {
    MinusCovered(now, now);
    MinusCovered(all, all);
  }

  /** The comprehension is empty when every element is excluded. */
  lemma {:induction false} MinusCovered(a: seq<string>, b: seq<string>)
    requires forall x :: x in a ==> x in b
    ensures Minus(a, b) == []
    decreases |a|
  {
    if a != [] {
      assert a[0] in b;
      MinusCovered(a[1..], b);
    }
  }

  /** `sorted(pair)` joined by a space: the key of a `confpairs` entry. */
  function PairKey(p: (string, string)): string {
    Key(p.0, p.1)
  }

  /** The keys of the pairs at positions `js` of `pairs`. */
  function OwnerKeys(pairs: seq<(string, string)>, js: seq<nat>): (ks: set<string>)
    requires forall e :: 0 <= e < |js| ==> js[e] < |pairs|
    ensures forall k :: k in ks <==> exists e :: 0 <= e < |js| && PairKey(pairs[js[e]]) == k
    decreases |js|
  {
    if js == [] then {}
    else
      var init := js[..|js| - 1];
      assert forall e :: 0 <= e < |init| ==> init[e] == js[e];
      OwnerKeys(pairs, init) + {PairKey(pairs[js[|js| - 1]])}
  }

  /** Every deleted aircraft has an index list. */
  ghost predicate OwnersFitIndex(index: seq<seq<nat>>, delidx: seq<nat>) {
    forall m :: 0 <= m < |delidx| ==> delidx[m] < |index|
  }

  /** The keys of every pair listed for a deleted aircraft. */
  function OwnersKeys(pairs: seq<(string, string)>, index: seq<seq<nat>>, delidx: seq<nat>)
    : (ks: set<string>)
    requires IndexFits(pairs, index) && OwnersFitIndex(index, delidx)
    ensures forall k :: k in ks <==>
      exists m, e :: 0 <= m < |delidx| && 0 <= e < |index[delidx[m]]| &&
                     PairKey(pairs[index[delidx[m]][e]]) == k
    decreases |delidx|
  {
    if delidx == [] then {}
    else
      var init := delidx[..|delidx| - 1];
      var last := delidx[|delidx| - 1];
      assert forall m :: 0 <= m < |init| ==> init[m] == delidx[m];
      var ks := OwnersKeys(pairs, index, init) + OwnerKeys(pairs, index[last]);
      assert forall k :: k in ks ==>
        exists m, e :: 0 <= m < |delidx| && 0 <= e < |index[delidx[m]]| &&
                       PairKey(pairs[index[delidx[m]][e]]) == k;
      ks
  }

  /** What updateAsasLists leaves in the ASAS object: `conflist_now` without the keys of the
      pairs in `iconf` of the deleted aircraft, `LOSlist_now` without those in their `ilos`. */
  function AsasListsAfter(r: Registry, delidx: seq<nat>): Registry
    requires IndicesOk(r) && OwnersFitIndex(r.iConf, delidx) && OwnersFitIndex(r.iLos, delidx)
  {
    r.(confListNow := FilterOut(r.confListNow, OwnersKeys(r.confPairs, r.iConf, delidx)),
       losListNow := FilterOut(r.losListNow, OwnersKeys(r.confPairs, r.iLos, delidx)))
  }

  /** Without deletions updateAsasLists is the identity. */
  lemma AsasListsAfterNone(r: Registry)
    requires IndicesOk(r)
    ensures AsasListsAfter(r, []) == r
  {
    FilterOutNone(r.confListNow);
    FilterOutNone(r.losListNow);
  }

  /** One more deleted aircraft removes the keys of its own pairs from what is left. */
  lemma AsasListsAfterStep(r: Registry, delidx: seq<nat>, m: nat)
    requires IndicesOk(r) && RegValid(r) && m < |delidx|
    requires OwnersFitIndex(r.iConf, delidx) && OwnersFitIndex(r.iLos, delidx)
    ensures delidx[m] < |r.iConf| && delidx[m] < |r.iLos|
    ensures var s := AsasListsAfter(r, delidx[..m]);
      && NoDup(s.confListNow) && NoDup(s.losListNow)
      && AsasListsAfter(r, delidx[..m + 1]) ==
           s.(confListNow := FilterOut(s.confListNow, OwnerKeys(r.confPairs, r.iConf[delidx[m]])),
              losListNow := FilterOut(s.losListNow, OwnerKeys(r.confPairs, r.iLos[delidx[m]])))
  {
    var prev := delidx[..m];
    var idx := delidx[m];
    assert delidx[..m + 1] == prev + [idx];
    var cs := OwnersKeys(r.confPairs, r.iConf, prev);
    var ls := OwnersKeys(r.confPairs, r.iLos, prev);
    FilterOutNoDup(r.confListNow, cs);
    FilterOutNoDup(r.losListNow, ls);
    FilterOutTwice(r.confListNow, cs, OwnerKeys(r.confPairs, r.iConf[idx]));
    FilterOutTwice(r.losListNow, ls, OwnerKeys(r.confPairs, r.iLos[idx]));
    assert OwnersKeys(r.confPairs, r.iConf, delidx[..m + 1]) ==
           cs + OwnerKeys(r.confPairs, r.iConf[idx]);
    assert OwnersKeys(r.confPairs, r.iLos, delidx[..m + 1]) ==
           ls + OwnerKeys(r.confPairs, r.iLos[idx]);
  }

  /** updateAsasLists only removes keys from the two `_now` lists, exactly those of the
      deleted aircraft's pairs, and keeps the ASAS invariant; with nothing deleted it changes
      nothing. */
  lemma AsasListsAfterSpec(r: Registry, delidx: seq<nat>)
    requires IndicesOk(r) && OwnersFitIndex(r.iConf, delidx) && OwnersFitIndex(r.iLos, delidx)
    ensures var s := AsasListsAfter(r, delidx);
      && (forall k :: k in s.confListNow <==>
            k in r.confListNow && k !in OwnersKeys(r.confPairs, r.iConf, delidx))
      && (forall k :: k in s.losListNow <==>
            k in r.losListNow && k !in OwnersKeys(r.confPairs, r.iLos, delidx))
      && |s.confListNow| <= |r.confListNow| && |s.losListNow| <= |r.losListNow|
      && (RegValid(r) ==> RegValid(s))
      && (delidx == [] ==> s == r)
  {
    var s := AsasListsAfter(r, delidx);
    forall k ensures k in s.confListNow <==> k in SetOf(s.confListNow) { }
    forall k ensures k in s.losListNow <==> k in SetOf(s.losListNow) { }
    if RegValid(r) {
      FilterOutNoDup(r.confListNow, OwnersKeys(r.confPairs, r.iConf, delidx));
      FilterOutNoDup(r.losListNow, OwnersKeys(r.confPairs, r.iLos, delidx));
    }
    if delidx == [] {
      FilterOutNone(r.confListNow);
      FilterOutNone(r.losListNow);
    }
  }

  /** The positions where `mask` holds, increasing (`np.where`). */
  function Where(mask: seq<bool>): (w: seq<nat>)
    ensures forall m :: 0 <= m < |w| ==> w[m] < |mask| && mask[w[m]]
    ensures forall i :: 0 <= i < |mask| && mask[i] ==> i in w
    ensures forall m, m' :: 0 <= m < m' < |w| ==> w[m] < w[m']
    decreases |mask|
  {
    if mask == [] then []
    else
      var init := mask[..|mask| - 1];
      assert forall i :: 0 <= i < |init| ==> init[i] == mask[i];
      Where(init) + (if mask[|mask| - 1] then [|mask| - 1] else [])
  }

  /** The aircraft inside before and outside now. */
  function Left(before: seq<bool>, now: seq<bool>): (gone: seq<bool>)
    requires |before| == |now|
    ensures |gone| == |before|
    ensures forall i :: 0 <= i < |gone| ==> (gone[i] <==> before[i] && !now[i])
  {
    seq(|before|, i requires 0 <= i < |before| => before[i] && !now[i])
  }

  /** `np.intersect1d(np.where(self.inside == True), np.where(inside == False))`: the sorted
      indices found in both, that is the positions where the aircraft has left. */
  function DelIdx(before: seq<bool>, now: seq<bool>): seq<nat>
    requires |before| == |now|
  {
    Where(Left(before, now))
  }

  /** An aircraft is deleted exactly when it was inside and is now outside; in particular an
      aircraft that was never inside is never deleted. */
  lemma DelIdxSpec(before: seq<bool>, now: seq<bool>)
    requires |before| == |now|
    ensures var d := DelIdx(before, now);
      && (forall i :: i in d <==> 0 <= i < |before| && before[i] && !now[i])
      && (forall m, m' :: 0 <= m < m' < |d| ==> d[m] < d[m'])
  {
  }

  /** The deleted positions are aircraft positions of any per-aircraft index. */
  lemma DelIdxFits(before: seq<bool>, now: seq<bool>, index: seq<seq<nat>>)
    requires |before| == |now| == |index|
    ensures OwnersFitIndex(index, DelIdx(before, now))
  {
  }

  /** The survivors mask of a deletion. */
  function Kept(gone: seq<bool>): (keep: seq<bool>)
    ensures |keep| == |gone| && forall i :: 0 <= i < |gone| ==> keep[i] == !gone[i]
  {
    seq(|gone|, i requires 0 <= i < |gone| => !gone[i])
  }

  /** The positions outside `Where(gone)` are those kept. */
  lemma WhereKept(gone: seq<bool>)
    ensures seq(|gone|, i => i !in Where(gone)) == Kept(gone)
  {
  }

  /** An element is selected exactly when some kept position holds it. */
  lemma {:induction false} SelectMembers<T>(s: seq<T>, keep: seq<bool>)
    requires |s| == |keep|
    ensures forall i :: 0 <= i < |s| && keep[i] ==> s[i] in Select(s, keep)
    ensures forall x :: x in Select(s, keep) ==> exists i :: 0 <= i < |s| && keep[i] && s[i] == x
    decreases |s|
  {
    if s != [] {
      SelectMembers(s[1..], keep[1..]);
      var rest := Select(s[1..], keep[1..]);
      assert Select(s, keep) == (if keep[0] then [s[0]] else []) + rest;
      forall i | 0 <= i < |s| && keep[i] ensures s[i] in Select(s, keep) {
        if i > 0 { assert s[1..][i - 1] == s[i] && keep[1..][i - 1] == keep[i]; }
      }
      forall x | x in Select(s, keep) ensures exists i :: 0 <= i < |s| && keep[i] && s[i] == x {
        if !(keep[0] && x == s[0]) {
          assert x in rest;
          var i :| 0 <= i < |s[1..]| && keep[1..][i] && s[1..][i] == x;
          assert keep[i + 1] && s[i + 1] == x;
        }
      }
    }
  }

  /** After a tick, the aircraft whose callsigns remain are exactly those that did not leave:
      with unique callsigns, deletion by callsign deletes exactly the positions in delidx. */
  lemma SurvivorsSpec(ids: seq<string>, gone: seq<bool>)
    requires NoDup(ids) && |ids| == |gone|
    ensures forall i :: 0 <= i < |ids| ==> (ids[i] in Select(ids, Kept(gone)) <==> !gone[i])
  {
    SelectMembers(ids, Kept(gone));
  }

  /** In a selection from a duplicate-free sequence, a kept element sits after the kept
      elements before it. */
  lemma {:induction false} SelectIndex<T>(s: seq<T>, keep: seq<bool>, j: nat)
    requires NoDup(s) && |s| == |keep| && j < |s| && keep[j]
    ensures IndexOf(Select(s, keep), s[j]) == CountTrue(keep[..j])
    decreases |s|
  {
    var rest := Select(s[1..], keep[1..]);
    if j > 0 {
      NoDupTail(s);
      SelectIndex(s[1..], keep[1..], j - 1);
      assert s[1..][j - 1] == s[j];
      assert keep[..j][1..] == keep[1..][..j - 1];
      assert s[j] != s[0];
      assert keep[..j][0] == keep[0];
      assert CountTrue(keep[..j]) == (if keep[0] then 1 else 0) + CountTrue(keep[1..][..j - 1]);
      if keep[0] {
        assert Select(s, keep) == [s[0]] + rest;
        assert ([s[0]] + rest)[1..] == rest;
      } else {
        assert Select(s, keep) == rest;
      }
    } else {
      assert Select(s, keep) == [s[0]] + rest;
    }
  }

  /** Deleting the position of a kept element from the selection is selecting without it. */
  lemma {:induction false} SelectDelete<T>(s: seq<T>, keep: seq<bool>, j: nat)
    requires |s| == |keep| && j < |s| && keep[j]
    ensures CountTrue(keep[..j]) < |Select(s, keep)|
    ensures Delete(Select(s, keep), CountTrue(keep[..j])) == Select(s, keep[j := false])
    decreases |s|
  {
    var rest := Select(s[1..], keep[1..]);
    var keep' := keep[j := false];
    if j > 0 {
      SelectDelete(s[1..], keep[1..], j - 1);
      assert keep[..j][1..] == keep[1..][..j - 1];
      assert keep'[1..] == keep[1..][j - 1 := false];
      if keep[0] {
        assert Select(s, keep) == [s[0]] + rest;
        assert Select(s, keep') == [s[0]] + Select(s[1..], keep'[1..]);
      } else {
        assert Select(s, keep') == Select(s[1..], keep'[1..]);
      }
    } else {
      assert keep'[1..] == keep[1..];
      assert Select(s, keep) == [s[0]] + rest;
    }
  }

  /** The position `m` of `delidx` is among the first m + 1. */
  lemma DelIdxStep(delidx: seq<nat>, m: nat, n: nat)
    requires m < |delidx| && forall k :: 0 <= k < |delidx| ==> delidx[k] < n
    requires forall k, k' :: 0 <= k < k' < |delidx| ==> delidx[k] < delidx[k']
    ensures delidx[m] !in delidx[..m]
    ensures seq(n, i => i !in delidx[..m])[delidx[m] := false] == seq(n, i => i !in delidx[..m + 1])
  {
    assert delidx[..m + 1] == delidx[..m] + [delidx[m]];
  }

  /** Python `a[-n:]`: the start of the last n elements (all of them when n is 0). */
  function LastStart(len: nat, n: nat): nat
    requires n <= len
  {
    if n == 0 then 0 else len - n
  }

  /** The two spellings that switch the area off. */
  predicate IsOff(s: string) {
    s == "OFF" || s == "OF"
  }

  /** The name under which a box given by coordinates is defined. */
  const BoxName: string := "DELAREA"

  /** The replies of the two refusals of `set_area`. */
  const UnknownShapeReply: string :=
    "Shapename unknown. Please create shapename first or shapename is misspelled!"
  const BadArgsReply: string :=
    "Incorrect arguments\nAREA Shapename/OFF or\n Area lat,lon,lat,lon,[top,bottom]"

  /** The area switch command's arguments: a shape name or a number. */
  datatype Arg = Name(s: string) | Num(x: real)

  /** `str(self.name)` */
  function NameText(name: Option<string>): string {
    match name
    case None => "None"
    case Some(s) => s
  }

  class Area {
    var active: bool
    var name: Option<string>
    /** Per aircraft: inside the area at the last update. */
    var inside: seq<bool>
    /** Per aircraft: simulation time of creation. */
    var createTime: seq<real>
    /** The snapshots of `conflist_now`, `conflist_reallyall`, `LOSlist_now` and `LOSlist_all`
        taken at the last update. */
    var logConfList: seq<string>
    var logAllConflicts: seq<string>
    var logIntrList: seq<string>
    var logAllIntrusions: seq<string>

    /** The per-aircraft arrays have one entry per aircraft; each `_now` snapshot lies within
        its history snapshot, and no snapshot repeats a key. */
    ghost predicate Valid()
      reads this
    {
      && |inside| == |createTime|
      && NoDup(logConfList) && NoDup(logAllConflicts) && SetOf(logConfList) <= SetOf(logAllConflicts)
      && NoDup(logIntrList) && NoDup(logAllIntrusions) && SetOf(logIntrList) <= SetOf(logAllIntrusions)
    }

    /** A fresh plugin: off, no area, no aircraft, empty snapshots. */
    constructor()
      ensures Valid() && !active && name == None
      ensures inside == [] && createTime == []
      ensures logConfList == [] && logAllConflicts == [] && logIntrList == [] && logAllIntrusions == []
    {
      active := false;
      name := None;
      inside := [];
      createTime := [];
      logConfList := [];
      logAllConflicts := [];
      logIntrList := [];
      logAllIntrusions := [];
    }

    /** `create(n)`: n new aircraft (not inside), then the last n creation times are set to
        simt; with n = 0 the slice `[-0:]` is the whole array, so every creation time is. */
    method Create(n: nat, simt: real)
      requires Valid()
      modifies this`inside, this`createTime
      ensures Valid()
      ensures inside == old(inside) + seq(n, _ => false)
      ensures |createTime| == |old(createTime)| + n
      ensures forall i :: 0 <= i < |old(createTime)| ==>
                createTime[i] == if n == 0 then simt else old(createTime)[i]
      ensures forall i :: |old(createTime)| <= i < |createTime| ==> createTime[i] == simt
    {
      inside := inside + seq(n, _ => false);
      createTime := createTime + seq(n, _ => 0.0);
      var start := LastStart(|createTime|, n);
      createTime := createTime[..start] + seq(|createTime| - start, _ => simt);
    }

    /** `set_area(*args)` with the area filter's names as `areas`; returns the success flag,
        the reply and the area names afterwards. */
    method SetArea(args: seq<Arg>, areas: set<string>)
      returns (ok: bool, reply: string, areasOut: set<string>)
      modifies this`active, this`name
      ensures args == [] ==>
        ok && active == old(active) && name == old(name) && areasOut == areas &&
        reply == "Area is currently " + (if active then "ON" else "OFF") +
                 "\nCurrent Area name is: " + NameText(name)
      ensures |args| == 1 && args[0].Name? && args[0].s in areas ==>
        ok && active && name == Some(args[0].s) && areasOut == areas &&
        reply == "Area is set to " + args[0].s
      ensures |args| == 1 && args[0].Name? && args[0].s !in areas && IsOff(args[0].s) ==>
        ok && !active && name == None &&
        areasOut == (if old(name).Some? then areas - {old(name).value} else areas) &&
        reply == "Area is switched OFF"
      ensures |args| == 1 && args[0].Name? && args[0].s !in areas && !IsOff(args[0].s) ==>
        !ok && active == old(active) && name == old(name) && areasOut == areas &&
        reply == UnknownShapeReply
      ensures args != [] && args[0].Num? && 4 <= |args| <= 6 ==>
        ok && active && name == Some(BoxName) && areasOut == areas + {BoxName} &&
        reply == "Area is ON. Area name is: " + BoxName
      ensures args != [] && !(|args| == 1 && args[0].Name?) && !(args[0].Num? && 4 <= |args| <= 6) ==>
        !ok && active == old(active) && name == old(name) && areasOut == areas &&
        reply == BadArgsReply
    {
      if args == [] {
        ok := true;
        reply := "Area is currently " + (if active then "ON" else "OFF") +
                 "\nCurrent Area name is: " + NameText(name);
        areasOut := areas;
        return;
      }
      if args[0].Name? && |args| == 1 {
        ok, reply, areasOut := SetShape(args[0].s, areas);
        return;
      }
      areasOut := areas;
      if args[0].Num? && 4 <= |args| <= 6 {
        active := true;
        name := Some(BoxName);
        areasOut := areas + {BoxName};
        ok := true;
        reply := "Area is ON. Area name is: " + BoxName;
        return;
      }
      ok := false;
      reply := BadArgsReply;
    }

    /** `set_area(shape)` with a single shape name: an existing shape switches the area on, OFF
        or OF switches it off and deletes the current shape, anything else is refused. */
    method SetShape(shape: string, areas: set<string>)
      returns (ok: bool, reply: string, areasOut: set<string>)
      modifies this`active, this`name
      ensures shape in areas ==>
        ok && active && name == Some(shape) && areasOut == areas && reply == "Area is set to " + shape
      ensures shape !in areas && IsOff(shape) ==>
        ok && !active && name == None &&
        areasOut == (if old(name).Some? then areas - {old(name).value} else areas) &&
        reply == "Area is switched OFF"
      ensures shape !in areas && !IsOff(shape) ==>
        !ok && active == old(active) && name == old(name) && areasOut == areas &&
        reply == UnknownShapeReply
    {
      areasOut := areas;
      if shape in areas {
        name := Some(shape);
        active := true;
        ok := true;
        reply := "Area is set to " + shape;
        return;
      }
      if IsOff(shape) {
        if name.Some? {
          areasOut := areas - {name.value};
        }
        active := false;
        name := None;
        ok := true;
        reply := "Area is switched OFF";
        return;
      }
      ok := false;
      reply := UnknownShapeReply;
    }

    /** `update()`: `insideNow` is what the area filter reports for the aircraft `ids`, and the
        result is the callsigns left after the deletions, with the conflict and intrusion
        events of this update. */
    method Update(asas: Asas, ids: seq<string>, insideNow: seq<bool>)
      returns (remaining: seq<string>, conf: Events, intr: Events)
      requires Valid() && asas.Valid()
      requires NoDup(ids) && |insideNow| == |ids| && |inside| == |ids|
      requires IndicesOk(asas.reg)
      requires active ==> OwnersFitIndex(asas.reg.iConf, DelIdx(inside, insideNow)) &&
                          OwnersFitIndex(asas.reg.iLos, DelIdx(inside, insideNow))
      modifies this`inside, this`createTime, this`logConfList, this`logAllConflicts
      modifies this`logIntrList, this`logAllIntrusions, asas`reg
      ensures Valid() && asas.Valid()
      ensures active == old(active) && name == old(name)
      ensures !old(active) ==>
        && asas.reg == old(asas.reg) && remaining == ids && conf == Events([], []) && intr == Events([], [])
        && inside == old(inside) && createTime == old(createTime)
        && logConfList == old(logConfList) && logAllConflicts == old(logAllConflicts)
        && logIntrList == old(logIntrList) && logAllIntrusions == old(logAllIntrusions)
      ensures old(active) ==>
        var gone := Left(old(inside), insideNow);
        var r := AsasListsAfter(old(asas.reg), DelIdx(old(inside), insideNow));
        && asas.reg == r
        && conf == LogEvents(r.confListNow, old(logConfList), r.confListReallyAll, old(logAllConflicts))
        && intr == LogEvents(r.losListNow, old(logIntrList), r.losListAll, old(logAllIntrusions))
        && logConfList == r.confListNow && logAllConflicts == r.confListReallyAll
        && logIntrList == r.losListNow && logAllIntrusions == r.losListAll
        && remaining == Select(ids, Kept(gone))
        && inside == Select(insideNow, Kept(gone))
        && createTime == Select(old(createTime), Kept(gone))
    {
      if !active {
        remaining := ids;
        conf := Events([], []);
        intr := Events([], []);
        return;
      }
      remaining, conf, intr := Sweep(asas, ids, insideNow);
    }

    /** The part of `update()` that runs while the plugin is on: prune the ASAS lists of the
        aircraft that left, log, then delete those aircraft. */
    method Sweep(asas: Asas, ids: seq<string>, insideNow: seq<bool>)
      returns (remaining: seq<string>, conf: Events, intr: Events)
      requires Valid() && asas.Valid()
      requires NoDup(ids) && |insideNow| == |ids| && |inside| == |ids|
      requires IndicesOk(asas.reg)
      requires OwnersFitIndex(asas.reg.iConf, DelIdx(inside, insideNow)) &&
               OwnersFitIndex(asas.reg.iLos, DelIdx(inside, insideNow))
      modifies this`inside, this`createTime, this`logConfList, this`logAllConflicts
      modifies this`logIntrList, this`logAllIntrusions, asas`reg
      ensures Valid() && asas.Valid()
      ensures var gone := Left(old(inside), insideNow);
        var r := AsasListsAfter(old(asas.reg), DelIdx(old(inside), insideNow));
        && asas.reg == r
        && conf == LogEvents(r.confListNow, old(logConfList), r.confListReallyAll, old(logAllConflicts))
        && intr == LogEvents(r.losListNow, old(logIntrList), r.losListAll, old(logAllIntrusions))
        && logConfList == r.confListNow && logAllConflicts == r.confListReallyAll
        && logIntrList == r.losListNow && logAllIntrusions == r.losListAll
        && remaining == Select(ids, Kept(gone))
        && inside == Select(insideNow, Kept(gone))
        && createTime == Select(old(createTime), Kept(gone))
    {
      var gone := Left(inside, insideNow);
      var delidx := DelIdx(inside, insideNow);
      PruneAsasLists(asas, delidx);
      inside := insideNow;
      conf, intr := UpdateLogs(asas);
      remaining := DeleteAircraft(ids, gone, delidx);
    }

    /** `if len(delidx) > 0: self.updateAsasLists(delidx)`. The index lists of the ASAS object
        may be older than the traffic (ASAS switched off, or the traffic changed since the last
        detection); they are then read by position, as the source does. */
    method PruneAsasLists(asas: Asas, delidx: seq<nat>)
      requires asas.Valid() && IndicesOk(asas.reg)
      requires OwnersFitIndex(asas.reg.iConf, delidx) && OwnersFitIndex(asas.reg.iLos, delidx)
      modifies asas`reg
      ensures asas.reg == AsasListsAfter(old(asas.reg), delidx) && asas.Valid()
    {
      if |delidx| > 0 {
        UpdateAsasLists(asas, delidx);
      } else {
        AsasListsAfterNone(asas.reg);
      }
    }

    /** `delac = np.array(traf.id)[delidx]; for ac in delac: traf.delete(traf.id2idx(ac))`,
        where deleting aircraft k removes entry k of every per-aircraft array. */
    method DeleteAircraft(ids: seq<string>, gone: seq<bool>, delidx: seq<nat>)
      returns (remaining: seq<string>)
      requires NoDup(ids) && |inside| == |ids| && |createTime| == |ids| && |gone| == |ids|
      requires delidx == Where(gone)
      modifies this`inside, this`createTime
      ensures remaining == Select(ids, Kept(gone))
      ensures inside == Select(old(inside), Kept(gone)) && createTime == Select(old(createTime), Kept(gone))
    {
      WhereKept(gone);
      var n := |ids|;
      var delac := seq(|delidx|, m requires 0 <= m < |delidx| => ids[delidx[m]]);
      ghost var inside0 := inside;
      ghost var createTime0 := createTime;
      ghost var keep := seq(n, i => i !in delidx[..0]);
      assert forall i :: 0 <= i < n ==> keep[i];
      remaining := ids;
      SelectAll(ids, keep);
      SelectAll(inside0, keep);
      SelectAll(createTime0, keep);
      for m := 0 to |delac|
        invariant keep == seq(n, i => i !in delidx[..m])
        invariant remaining == Select(ids, keep)
        invariant inside == Select(inside0, keep) && createTime == Select(createTime0, keep)
      {
        var j := delidx[m];
        DelIdxStep(delidx, m, n);
        SelectIndex(ids, keep, j);
        SelectDelete(ids, keep, j);
        SelectDelete(inside0, keep, j);
        SelectDelete(createTime0, keep, j);
        var k := IndexOf(remaining, delac[m]);
        remaining := Delete(remaining, k);
        inside := Delete(inside, k);
        createTime := Delete(createTime, k);
        keep := keep[j := false];
      }
      assert delidx[..|delidx|] == delidx;
    }

    /** `updateAsasLists(delidx)`: for each deleted aircraft, the keys of its pairs in `iconf`
        leave `conflist_now` and those in `ilos` leave `LOSlist_now`. */
    method UpdateAsasLists(asas: Asas, delidx: seq<nat>)
      requires asas.Valid() && IndicesOk(asas.reg)
      requires OwnersFitIndex(asas.reg.iConf, delidx) && OwnersFitIndex(asas.reg.iLos, delidx)
      modifies asas`reg
      ensures asas.reg == AsasListsAfter(old(asas.reg), delidx) && asas.Valid()
    {
      ghost var r0 := asas.reg;
      AsasListsAfterSpec(r0, delidx);
      AsasListsAfterNone(r0);
      assert delidx[..0] == [];
      for m := 0 to |delidx|
        invariant asas.reg == AsasListsAfter(r0, delidx[..m])
      {
        var idx := delidx[m];
        AsasListsAfterStep(r0, delidx, m);
        var now := RemoveKeys(asas.reg.confListNow, asas.reg.confPairs, asas.reg.iConf[idx]);
        var losNow := RemoveKeys(asas.reg.losListNow, asas.reg.confPairs, asas.reg.iLos[idx]);
        asas.reg := asas.reg.(confListNow := now, losListNow := losNow);
      }
      assert delidx[..|delidx|] == delidx;
    }

    /** The two logging calls of `update()`, one after the other. */
    method UpdateLogs(asas: Asas) returns (conf: Events, intr: Events)
      requires RegValid(asas.reg)
      modifies this`logConfList, this`logAllConflicts, this`logIntrList, this`logAllIntrusions
      ensures conf == LogEvents(asas.reg.confListNow, old(logConfList),
                                asas.reg.confListReallyAll, old(logAllConflicts))
      ensures intr == LogEvents(asas.reg.losListNow, old(logIntrList),
                                asas.reg.losListAll, old(logAllIntrusions))
      ensures logConfList == asas.reg.confListNow && logAllConflicts == asas.reg.confListReallyAll
      ensures logIntrList == asas.reg.losListNow && logAllIntrusions == asas.reg.losListAll
      ensures NoDup(logConfList) && NoDup(logAllConflicts) && SetOf(logConfList) <= SetOf(logAllConflicts)
      ensures NoDup(logIntrList) && NoDup(logAllIntrusions) && SetOf(logIntrList) <= SetOf(logAllIntrusions)
    {
      conf := UpdateConfLog(asas);
      intr := UpdateIntrLog(asas);
    }

    /** `updateCONFlog()`: the conflict events, then the new snapshots. */
    method UpdateConfLog(asas: Asas) returns (ev: Events)
      requires RegValid(asas.reg)
      modifies this`logConfList, this`logAllConflicts
      ensures ev == LogEvents(asas.reg.confListNow, old(logConfList),
                              asas.reg.confListReallyAll, old(logAllConflicts))
      ensures NoDup(logConfList) && NoDup(logAllConflicts) && SetOf(logConfList) <= SetOf(logAllConflicts)
      ensures logConfList == asas.reg.confListNow && logAllConflicts == asas.reg.confListReallyAll
    {
      ev := TransitionEvents(asas.reg.confListNow, logConfList,
                             asas.reg.confListReallyAll, logAllConflicts);
      logConfList := asas.reg.confListNow;
      logAllConflicts := asas.reg.confListReallyAll;
    }

    /** `updateINTRlog()`: the same over the intrusion lists. */
    method UpdateIntrLog(asas: Asas) returns (ev: Events)
      requires RegValid(asas.reg)
      modifies this`logIntrList, this`logAllIntrusions
      ensures ev == LogEvents(asas.reg.losListNow, old(logIntrList),
                              asas.reg.losListAll, old(logAllIntrusions))
      ensures NoDup(logIntrList) && NoDup(logAllIntrusions) && SetOf(logIntrList) <= SetOf(logAllIntrusions)
      ensures logIntrList == asas.reg.losListNow && logAllIntrusions == asas.reg.losListAll
    {
      ev := TransitionEvents(asas.reg.losListNow, logIntrList, asas.reg.losListAll, logAllIntrusions);
      logIntrList := asas.reg.losListNow;
      logAllIntrusions := asas.reg.losListAll;
    }
  }

  /** Selecting everything keeps the sequence. */
  lemma {:induction false} SelectAll<T>(s: seq<T>, keep: seq<bool>)
    requires |s| == |keep| && forall i :: 0 <= i < |keep| ==> keep[i]
    ensures Select(s, keep) == s
    decreases |s|
  {
    if s != [] {
      SelectAll(s[1..], keep[1..]);
    }
  }

  /** The body of updateCONFlog / updateINTRlog before the snapshots: the two comprehensions,
      then each key new to the history that is not yet a creation is appended to both lists. */
  method TransitionEvents(now: seq<string>, log: seq<string>, all: seq<string>, logAll: seq<string>)
    returns (ev: Events)
    ensures ev == LogEvents(now, log, all, logAll)
  {
    var created := Minus(now, log);
    var deleted := Minus(log, now);
    var news := Minus(all, logAll);
    ghost var c0 := created;
    if news != [] {
      for k := 0 to |news|
        invariant created == AppendAllNew(c0, news[..k])
        invariant |c0| <= |created| && deleted == Minus(log, now) + created[|c0|..]
      {
        assert news[..k + 1][..k] == news[..k];
        AppendAllNewSet(c0, news[..k]);
        if news[k] !in created {
          created := created + [news[k]];
          deleted := deleted + [news[k]];
        }
      }
      assert news[..|news|] == news;
    }
    AppendAllNewSet(c0, news);
    ev := Events(created, deleted);
  }

  /** The inner loops of updateAsasLists for one aircraft: the key of each listed pair is
      removed from `list` when present. */
  method RemoveKeys(list: seq<string>, pairs: seq<(string, string)>, js: seq<nat>)
    returns (out: seq<string>)
    requires NoDup(list) && forall e :: 0 <= e < |js| ==> js[e] < |pairs|
    ensures out == FilterOut(list, OwnerKeys(pairs, js))
  {
    out := list;
    FilterOutNone(list);
    for i := 0 to |js|
      invariant out == FilterOut(list, OwnerKeys(pairs, js[..i]))
    {
      assert js[..i + 1][..i] == js[..i];
      var srt := Sorted(pairs[js[i]].0, pairs[js[i]].1);
      var entry := srt.0 + " " + srt.1;
      RemoveFirstIsFilter(list, entry, OwnerKeys(pairs, js[..i]));
      if entry in out {
        out := RemoveFirst(out, entry);
      }
    }
    assert js[..|js|] == js;
  }

  /** Before the aircraft leave, their conflicts and intrusions that are still current leave
      the `_now` lists, so an update that deletes an aircraft sends a DEL event for each of its
      logged conflicts and intrusions. */
  lemma DeletedAircraftEventsEnd(r: Registry, delidx: seq<nat>, log: seq<string>, logAll: seq<string>,
                                 logIntr: seq<string>, logAllIntr: seq<string>)
    requires IndicesOk(r) && OwnersFitIndex(r.iConf, delidx) && OwnersFitIndex(r.iLos, delidx)
    ensures var s := AsasListsAfter(r, delidx);
      && (forall k :: k in log && k in OwnersKeys(r.confPairs, r.iConf, delidx) ==>
            k in LogEvents(s.confListNow, log, s.confListReallyAll, logAll).deleted)
      && (forall k :: k in logIntr && k in OwnersKeys(r.confPairs, r.iLos, delidx) ==>
            k in LogEvents(s.losListNow, logIntr, s.losListAll, logAllIntr).deleted)
  {
    var s := AsasListsAfter(r, delidx);
    AsasListsAfterSpec(r, delidx);
    forall k | k in log && k in OwnersKeys(r.confPairs, r.iConf, delidx)
      ensures k in LogEvents(s.confListNow, log, s.confListReallyAll, logAll).deleted
    {
      var d := LogEvents(s.confListNow, log, s.confListReallyAll, logAll).deleted;
      var d0 := Minus(log, s.confListNow);
      assert k in SetOf(d0);
      assert d == d0 + d[|d0|..];
      assert k in SetOf(d);
    }
    forall k | k in logIntr && k in OwnersKeys(r.confPairs, r.iLos, delidx)
      ensures k in LogEvents(s.losListNow, logIntr, s.losListAll, logAllIntr).deleted
    {
      var d := LogEvents(s.losListNow, logIntr, s.losListAll, logAllIntr).deleted;
      var d0 := Minus(logIntr, s.losListNow);
      assert k in SetOf(d0);
      assert d == d0 + d[|d0|..];
      assert k in SetOf(d);
    }
  }
}
