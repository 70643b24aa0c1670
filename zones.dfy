/** The zone classifier of StateBasedCD (checkZone, diffZones). The area registry is an input:
    the set of configured area names and, for each name, which aircraft lie inside it (the
    point-in-area test belongs to the area filter, which is not modelled). */
module Zones {

  datatype AreaFilter = AreaFilter(names: set<string>, inside: (string, nat) -> bool)

  const InnerCircle: string := "INNERCIRCLE"
  /** Zone number of an aircraft inside the inner circle. */
  const InnerZone: int := 11

  /** `'ZONE%d' % k` for k in 1..10. */
  function ZoneName(k: nat): string
    requires 1 <= k <= 10
  {
    if k == 10 then "ZONE10" else "ZONE" + [('0' as int + k) as char]
  }

  /** Aircraft a is inside the configured zone k. */
  predicate InZone(af: AreaFilter, a: nat, k: nat)
    requires 1 <= k <= 10
  {
    ZoneName(k) in af.names && af.inside(ZoneName(k), a)
  }

  /** The number left in `zonenumbers[i]` after the passes for zones 1..k. */
  function LargestZone(af: AreaFilter, a: nat, k: nat): int
    requires k <= 10
  {
    if k == 0 then 0 else if InZone(af, a, k) then k else LargestZone(af, a, k - 1)
  }

  /** The zone number checkZone gives aircraft a. */
  function ZoneOf(af: AreaFilter, a: nat): int {
    if InnerCircle in af.names && af.inside(InnerCircle, a) then InnerZone
    else LargestZone(af, a, 10)
  }

  /** LargestZone picks the largest configured zone among 1..k that contains the aircraft. */
  lemma {:induction false} LargestZoneSpec(af: AreaFilter, a: nat, k: nat)
    requires k <= 10
    ensures var z := LargestZone(af, a, k);
      0 <= z <= k &&
      (z == 0 <==> forall m :: 1 <= m <= k ==> !InZone(af, a, m)) &&
      (z != 0 ==> InZone(af, a, z) && forall m :: z < m <= k ==> !InZone(af, a, m))
  {
    if k > 0 {
      LargestZoneSpec(af, a, k - 1);
    }
  }

  /** 11 inside the inner circle; otherwise the largest configured ZONEk containing the
      aircraft; otherwise 0. Names that are not configured never match. */
  lemma ZoneOfSpec(af: AreaFilter, a: nat)
    ensures var z := ZoneOf(af, a);
      (z == InnerZone <==> InnerCircle in af.names && af.inside(InnerCircle, a)) &&
      (z != InnerZone ==> 0 <= z <= 10) &&
      (z == 0 <==> !(InnerCircle in af.names && af.inside(InnerCircle, a)) &&
                   forall m :: 1 <= m <= 10 ==> !InZone(af, a, m)) &&
      (1 <= z <= 10 ==> ZoneName(z) in af.names && af.inside(ZoneName(z), a) &&
                        forall m :: z < m <= 10 ==> !InZone(af, a, m))
  {
    LargestZoneSpec(af, a, 10);
  }

  /** `checkZone(idx, traf)`: the zone number of every aircraft index in `idx`. */
  method CheckZone(idx: seq<nat>, af: AreaFilter) returns (zonenumbers: array<int>)
    ensures zonenumbers.Length == |idx|
    ensures forall i :: 0 <= i < |idx| ==> zonenumbers[i] == ZoneOf(af, idx[i])
  {
    zonenumbers := new int[|idx|](_ => 0);
    for zonenr := 1 to 11
      invariant forall i :: 0 <= i < |idx| ==> zonenumbers[i] == LargestZone(af, idx[i], zonenr - 1)
    {
      var name := ZoneName(zonenr);
      if name in af.names {
        for i := 0 to |idx|
          invariant forall k :: 0 <= k < i ==> zonenumbers[k] == LargestZone(af, idx[k], zonenr)
          invariant forall k :: i <= k < |idx| ==> zonenumbers[k] == LargestZone(af, idx[k], zonenr - 1)
        {
          if af.inside(name, idx[i]) {
            zonenumbers[i] := zonenr;
          }
        }
      }
    }
    if InnerCircle in af.names {
      for i := 0 to |idx|
        invariant forall k :: 0 <= k < i ==> zonenumbers[k] == ZoneOf(af, idx[k])
        invariant forall k :: i <= k < |idx| ==> zonenumbers[k] == LargestZone(af, idx[k], 10)
      {
        if af.inside(InnerCircle, idx[i]) {
          zonenumbers[i] := InnerZone;
        }
      }
    }
  }

  /** maxno: 10 when ZONE10 is configured, else 6. */
  function MaxZone(af: AreaFilter): int {
    if "ZONE10" in af.names then 10 else 6
  }

  /** `diffZones([z0, z1])` */
  function DiffZones(z0: int, z1: int, af: AreaFilter): int {
    var diff := if z0 >= z1 then z0 - z1 else z1 - z0;
    var maxno := MaxZone(af);
    if (z0 == maxno || z1 == maxno) && (z0 == 1 || z1 == 1) then 1 else diff
  }

  /** The zone difference is the absolute difference, except that zone 1 and the outermost
      configured zone count as adjacent; it does not depend on the order of the two aircraft. */
  lemma DiffZonesSpec(z0: int, z1: int, af: AreaFilter)
    ensures DiffZones(z0, z1, af) == DiffZones(z1, z0, af)
    ensures DiffZones(z0, z1, af) >= 0
    ensures DiffZones(1, MaxZone(af), af) == 1
    ensures DiffZones(2, MaxZone(af), af) == MaxZone(af) - 2
    ensures !({z0, z1} == {1, MaxZone(af)}) ==>
      DiffZones(z0, z1, af) == (if z0 >= z1 then z0 - z1 else z1 - z0)
  {
    if {z0, z1} == {1, MaxZone(af)} {
      assert z0 in {1, MaxZone(af)} && z1 in {1, MaxZone(af)};
    } else {
      assert !((z0 == MaxZone(af) && z1 == 1) || (z0 == 1 && z1 == MaxZone(af)));
    }
  }
}
