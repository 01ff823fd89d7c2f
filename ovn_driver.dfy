/** The LBaaS v2 OVN driver (`neutron_lbaas/drivers/ovn/driver.py`): one
    Load_Balancer row per native (TCP) listener, named by the listener id,
    whose vip entry lists the pool's member endpoints, attached to the
    logical switch of the load balancer's vip network and of every member
    network. Every handler reports its outcome as a completion. */
module OvnDriver {
  import opened Domain
  import opened EndpointCodec
  import opened Northbound

  /** `find_ovn_lb`: the row named by the listener when exactly one row has
      that name; nothing when none or several do. */
  function FindOvnLb(rows: Table, listenerId: string): (found: Option<nat>)
    ensures found.Some? <==> exists i :: UniquelyNamed(rows, listenerId, i)
    ensures found.Some? ==> UniquelyNamed(rows, listenerId, found.value)
  {
    var matches := Query(rows, listenerId);
    assert forall i :: UniquelyNamed(rows, listenerId, i) ==> |matches| == 1 by {
      forall i | UniquelyNamed(rows, listenerId, i) ensures |matches| == 1 {
        QueryUnique(rows, listenerId, i);
      }
    }
    if |matches| == 1 then
      assert forall j :: 0 <= j < |rows| && rows[j].name == listenerId ==> j in matches;
      assert UniquelyNamed(rows, listenerId, matches[0]);
      Some(matches[0])
    else None
  }

  /** `_get_s_ids_of_other_members`: the subnet of every member of the pool
      whose id differs from the given member's, in pool order. */
  function OtherSubnetIds(members: seq<Member>, memberId: string): (subnetIds: seq<string>)
    ensures forall s :: s in subnetIds <==> exists m :: m in members && m.id != memberId && m.subnetId == s
    ensures |subnetIds| <= |members|
  {
    if members == [] then []
    else
      assert forall m :: m in members[1..] ==> m in members;
      assert members == [members[0]] + members[1..];
      (if members[0].id != memberId then [members[0].subnetId] else []) + OtherSubnetIds(members[1..], memberId)
  }

  /** The switches of the networks the given members sit on. */
  ghost function MemberSwitches(members: seq<Member>, networkOf: string -> string): set<string> {
    set m | m in members :: SwitchName(networkOf(m.subnetId))
  }

  /** The switches of the networks all members but the given one sit on. */
  ghost function SiblingSwitches(members: seq<Member>, memberId: string, networkOf: string -> string): set<string> {
    set m | m in members && m.id != memberId :: SwitchName(networkOf(m.subnetId))
  }

  /** Member create's attach decision: the switch of the member's network is
      added unless another member of the pool is on the same subnet. */
  function SwitchesAfterAttach(switches: set<string>, members: seq<Member>, member: Member,
                               networkOf: string -> string): (after: set<string>)
    ensures switches <= after
    ensures after - switches <= {SwitchName(networkOf(member.subnetId))}
    ensures member.subnetId in OtherSubnetIds(members, member.id) ==> after == switches
    ensures member.subnetId !in OtherSubnetIds(members, member.id) ==> SwitchName(networkOf(member.subnetId)) in after
  {
    if member.subnetId in OtherSubnetIds(members, member.id) then switches
    else switches + {SwitchName(networkOf(member.subnetId))}
  }

  /** Member delete's detach decision: the switch of the member's network is
      removed unless another member of the pool is on the same subnet. */
  function SwitchesAfterDetach(switches: set<string>, members: seq<Member>, member: Member,
                               networkOf: string -> string): (after: set<string>)
    ensures after <= switches
    ensures switches - after <= {SwitchName(networkOf(member.subnetId))}
    ensures member.subnetId in OtherSubnetIds(members, member.id) ==> after == switches
    ensures member.subnetId !in OtherSubnetIds(members, member.id) ==> SwitchName(networkOf(member.subnetId)) !in after
  {
    if member.subnetId in OtherSubnetIds(members, member.id) then switches
    else switches - {SwitchName(networkOf(member.subnetId))}
  }

  /** The switches of all members are those of the other members plus the
      given member's own. */
  lemma MemberSwitchesSplit(members: seq<Member>, member: Member, networkOf: string -> string)
    requires member in members
    requires forall m :: m in members && m.id == member.id ==> m == member
    ensures MemberSwitches(members, networkOf)
            == SiblingSwitches(members, member.id, networkOf) + {SwitchName(networkOf(member.subnetId))}
  {
    var own := SwitchName(networkOf(member.subnetId));
    var all := MemberSwitches(members, networkOf);
    var siblings := SiblingSwitches(members, member.id, networkOf);
    assert own in all;
    forall s | s in all ensures s in siblings + {own} {
      var m :| m in members && s == SwitchName(networkOf(m.subnetId));
      if m.id != member.id {
        assert s in siblings;
      }
    }
  }

  /** Segment reference counting on member create: if the record was
      attached to the vip switch and to the switches of the other members,
      then after the create's attach decision it is attached to the vip
      switch and the switches of all members, new one included. */
  lemma CreateKeepsSegmentsCounted(vipSwitch: string, members: seq<Member>,
                                   member: Member, networkOf: string -> string)
    requires member in members
    requires forall m :: m in members && m.id == member.id ==> m == member
    ensures SwitchesAfterAttach({vipSwitch} + SiblingSwitches(members, member.id, networkOf), members, member, networkOf)
            == {vipSwitch} + MemberSwitches(members, networkOf)
  {
    MemberSwitchesSplit(members, member, networkOf);
    if member.subnetId in OtherSubnetIds(members, member.id) {
      var m :| m in members && m.id != member.id && m.subnetId == member.subnetId;
      assert SwitchName(networkOf(m.subnetId)) in SiblingSwitches(members, member.id, networkOf);
    }
  }

  /** Segment reference counting on member delete: when no two subnets of
      the pool share a network and no member sits on the vip network, a
      record attached to exactly the vip switch and the members' switches
      is, after the delete's detach decision, attached to exactly the vip
      switch and the remaining members' switches. */
  lemma DeleteKeepsSegmentsCounted(vipSwitch: string, members: seq<Member>,
                                   member: Member, networkOf: string -> string)
    requires member in members
    requires forall m :: m in members && m.id == member.id ==> m == member
    requires SwitchName(networkOf(member.subnetId)) != vipSwitch
    requires forall m :: m in members && networkOf(m.subnetId) == networkOf(member.subnetId) ==>
               m.subnetId == member.subnetId
    ensures SwitchesAfterDetach({vipSwitch} + MemberSwitches(members, networkOf), members, member, networkOf)
            == {vipSwitch} + SiblingSwitches(members, member.id, networkOf)
  {
    var own := SwitchName(networkOf(member.subnetId));
    var siblings := SiblingSwitches(members, member.id, networkOf);
    MemberSwitchesSplit(members, member, networkOf);
    if member.subnetId in OtherSubnetIds(members, member.id) {
      var m :| m in members && m.id != member.id && m.subnetId == member.subnetId;
      assert SwitchName(networkOf(m.subnetId)) in siblings;
    } else {
      forall m | m in members && m.id != member.id ensures SwitchName(networkOf(m.subnetId)) != own {
        SwitchNameInjective(networkOf(m.subnetId), networkOf(member.subnetId));
        assert m.subnetId in OtherSubnetIds(members, member.id);
      }
      assert own !in siblings;
    }
  }

  /** Two subnets on one network: member a on S1 and b on S2 share network
      N. Deleting a finds no other member on S1, so the switch of N is
      detached although b still sits on N. */
  lemma DeleteDetachesSharedNetwork()
    ensures var a := Member("a", "10.0.0.1", 80, "S1");
            var b := Member("b", "10.0.1.1", 80, "S2");
            var networkOf := (s: string) => "N";
            var switches := {SwitchName("V")} + MemberSwitches([a, b], networkOf);
            && SwitchName("N") in SiblingSwitches([a, b], a.id, networkOf)
            && SwitchName("N") !in SwitchesAfterDetach(switches, [a, b], a, networkOf)
  {
    var a := Member("a", "10.0.0.1", 80, "S1");
    var b := Member("b", "10.0.1.1", 80, "S2");
    var networkOf := (s: string) => "N";
    assert OtherSubnetIds([a, b], a.id) == ["S2"] by {
      assert [a, b][1..] == [b];
      assert OtherSubnetIds([b], a.id) == ["S2"] + OtherSubnetIds([], a.id);
    }
    assert b in [a, b] && b.id != a.id;
  }

  /** A member on the vip's network: deleting the only member detaches the
      vip switch, which the listener's record still needs. */
  lemma DeleteDetachesVipSwitch()
    ensures var a := Member("a", "10.0.0.1", 80, "S1");
            var networkOf := (s: string) => "N";
            var switches := {SwitchName("N")} + MemberSwitches([a], networkOf);
            SwitchName("N") !in SwitchesAfterDetach(switches, [a], a, networkOf)
  {
    var a := Member("a", "10.0.0.1", 80, "S1");
    assert OtherSubnetIds([a], a.id) == [] by {
      assert [a][1..] == [];
    }
  }

  /** The detach decision the reference counting intends: the switch of the
      member's network stays while the vip or any other member of the pool
      is on that network, and is removed otherwise. */
  ghost function IntendedSwitchesAfterDetach(switches: set<string>, members: seq<Member>, member: Member,
                                             vipSwitch: string, networkOf: string -> string): (after: set<string>)
    ensures after <= switches
    ensures switches - after <= {SwitchName(networkOf(member.subnetId))}
    ensures var own := SwitchName(networkOf(member.subnetId));
            (own == vipSwitch || own in SiblingSwitches(members, member.id, networkOf)) ==> after == switches
    ensures var own := SwitchName(networkOf(member.subnetId));
            !(own == vipSwitch || own in SiblingSwitches(members, member.id, networkOf)) ==> own !in after
  {
    var own := SwitchName(networkOf(member.subnetId));
    if own == vipSwitch || own in SiblingSwitches(members, member.id, networkOf) then switches
    else switches - {own}
  }

  /** With the intended decision, segment reference counting holds on every
      pool: a record attached to exactly the vip switch and the members'
      switches is, after the delete, attached to exactly the vip switch and
      the remaining members' switches. */
  lemma IntendedDeleteKeepsSegmentsCounted(vipSwitch: string, members: seq<Member>,
                                           member: Member, networkOf: string -> string)
    requires member in members
    requires forall m :: m in members && m.id == member.id ==> m == member
    ensures IntendedSwitchesAfterDetach({vipSwitch} + MemberSwitches(members, networkOf), members, member,
                                        vipSwitch, networkOf)
            == {vipSwitch} + SiblingSwitches(members, member.id, networkOf)
  {
    MemberSwitchesSplit(members, member, networkOf);
  }

  /** An upsert by name onto a table holding at most one row of that name
      leaves exactly one such row: the one it wrote. */
  lemma UpsertKeepsUnique(rows: Table, name: string, vip: string, field: string)
    requires |Query(rows, name)| <= 1
    ensures UniquelyNamed(UpsertVip(rows, name, vip, field), name, UpsertIndex(rows, name))
  {
    var updated := UpsertVip(rows, name, vip, field);
    var i := UpsertIndex(rows, name);
    forall j | 0 <= j < |updated| && updated[j].name == name ensures j == i {
      if j != i {
        assert j < |rows| && updated[j] == rows[j];
        if i < |rows| {
          AtMostOneMatch(rows, name, i, j);
        }
      }
    }
  }

  /** The only row with a name is the one `lb_add` updates under it. */
  lemma UniqueIsUpserted(rows: Table, name: string, i: nat)
    requires UniquelyNamed(rows, name, i)
    ensures UpsertIndex(rows, name) == i
  {
    var u := UpsertIndex(rows, name);
    assert u <= i;
    assert u < |rows|;
  }

  class Driver {
    /** The Northbound Load_Balancer table. */
    var rows: Table
    /** The completions reported to the LBaaS plugin, oldest first. */
    var completions: seq<Completion>
    /** `get_subnet(context, subnet_id)['network_id']` of the core plugin. */
    const networkOf: string -> string

    constructor (table: Table, networkOf: string -> string)
      ensures rows == table && completions == []
      ensures forall s :: this.networkOf(s) == networkOf(s)
    {
      rows := table;
      completions := [];
      this.networkOf := networkOf;
    }

    /** The switch of the network a subnet belongs to, as looked up through
        the core plugin. */
    function SubnetSwitch(subnetId: string): (name: string)
      ensures |name| >= 8 && name[..8] == "neutron-" && name[8..] == networkOf(subnetId)
    {
      SwitchName(networkOf(subnetId))
    }

    // LoadBalancerManager: pass-through completions, no store access.

    method CreateLoadBalancer(lb: LoadBalancer)
      modifies this
      ensures rows == old(rows)
      ensures completions == old(completions) + [Succeeded(Entity(LoadBalancerKind, lb.id), false)]
    {
      completions := completions + [Succeeded(Entity(LoadBalancerKind, lb.id), false)];
    }

    method UpdateLoadBalancer(oldLb: LoadBalancer, lb: LoadBalancer)
      modifies this
      ensures rows == old(rows)
      ensures completions == old(completions) + [Succeeded(Entity(LoadBalancerKind, lb.id), false)]
    {
      completions := completions + [Succeeded(Entity(LoadBalancerKind, lb.id), false)];
    }

    method DeleteLoadBalancer(lb: LoadBalancer)
      modifies this
      ensures rows == old(rows)
      ensures completions == old(completions) + [Succeeded(Entity(LoadBalancerKind, lb.id), true)]
    {
      completions := completions + [Succeeded(Entity(LoadBalancerKind, lb.id), true)];
    }

    // PoolManager: gated on the pool's listener protocol, no store access.

    method CreatePool(pool: Pool)
      modifies this
      ensures rows == old(rows)
      ensures completions == old(completions) +
                [if IsNative(pool.listener.protocol) then Succeeded(Entity(PoolKind, pool.id), false)
                 else Failed(Entity(PoolKind, pool.id))]
    {
      if !IsNative(pool.listener.protocol) {
        completions := completions + [Failed(Entity(PoolKind, pool.id))];
      } else {
        completions := completions + [Succeeded(Entity(PoolKind, pool.id), false)];
      }
    }

    method UpdatePool(oldPool: Pool, pool: Pool)
      modifies this
      ensures rows == old(rows)
      ensures completions == old(completions) +
                [if IsNative(pool.listener.protocol) then Succeeded(Entity(PoolKind, pool.id), false)
                 else Failed(Entity(PoolKind, pool.id))]
    {
      if !IsNative(pool.listener.protocol) {
        completions := completions + [Failed(Entity(PoolKind, pool.id))];
      } else {
        completions := completions + [Succeeded(Entity(PoolKind, pool.id), false)];
      }
    }

    method DeletePool(pool: Pool)
      modifies this
      ensures rows == old(rows)
      ensures completions == old(completions) + [Succeeded(Entity(PoolKind, pool.id), true)]
    {
      completions := completions + [Succeeded(Entity(PoolKind, pool.id), true)];
    }

    // HealthMonitorManager: pass-through completions, no store access.

    method CreateHealthMonitor(monitor: HealthMonitor)
      modifies this
      ensures rows == old(rows)
      ensures completions == old(completions) + [Succeeded(Entity(HealthMonitorKind, monitor.id), false)]
    {
      completions := completions + [Succeeded(Entity(HealthMonitorKind, monitor.id), false)];
    }

    method UpdateHealthMonitor(oldMonitor: HealthMonitor, monitor: HealthMonitor)
      modifies this
      ensures rows == old(rows)
      ensures completions == old(completions) + [Succeeded(Entity(HealthMonitorKind, monitor.id), false)]
    {
      completions := completions + [Succeeded(Entity(HealthMonitorKind, monitor.id), false)];
    }

    method DeleteHealthMonitor(monitor: HealthMonitor)
      modifies this
      ensures rows == old(rows)
      ensures completions == old(completions) + [Succeeded(Entity(HealthMonitorKind, monitor.id), true)]
    {
      completions := completions + [Succeeded(Entity(HealthMonitorKind, monitor.id), true)];
    }

    // ListenerManager

    /** A non-native listener fails without touching the store; a native one
        upserts its record with the vip and an empty endpoint list, attaches
        the vip network's switch, and succeeds. */
    method CreateListener(listener: Listener)
      modifies this
      ensures !IsNative(listener.protocol) ==>
                rows == old(rows) && completions == old(completions) + [Failed(Entity(ListenerKind, listener.id))]
      ensures IsNative(listener.protocol) ==>
                var i := UpsertIndex(old(rows), listener.id);
                var vip := Socket(listener.loadbalancer.vipAddress, listener.protocolPort);
                && rows == Attach(UpsertVip(old(rows), listener.id, vip, Join([])), i,
                                  SubnetSwitch(listener.loadbalancer.vipSubnetId))
                && completions == old(completions) + [Succeeded(Entity(ListenerKind, listener.id), false)]
      ensures IsNative(listener.protocol) && |Query(old(rows), listener.id)| <= 1 ==>
                var i := UpsertIndex(old(rows), listener.id);
                var vip := Socket(listener.loadbalancer.vipAddress, listener.protocolPort);
                && FindOvnLb(rows, listener.id) == Some(i)
                && vip in rows[i].vips && rows[i].vips[vip] == []
                && SubnetSwitch(listener.loadbalancer.vipSubnetId) in rows[i].switches
    {
      if !IsNative(listener.protocol) {
        completions := completions + [Failed(Entity(ListenerKind, listener.id))];
        return;
      }
      var vip := Socket(listener.loadbalancer.vipAddress, listener.protocolPort);
      var ips: seq<string> := [];
      ghost var before := rows;
      var lbIndex := UpsertIndex(rows, listener.id);
      rows := UpsertVip(rows, listener.id, vip, Join(ips));
      if |Query(before, listener.id)| <= 1 {
        UpsertKeepsUnique(before, listener.id, vip, Join(ips));
      }
      var lsName := SubnetSwitch(listener.loadbalancer.vipSubnetId);
      ghost var upserted := rows;
      rows := Attach(rows, lbIndex, lsName);
      if |Query(before, listener.id)| <= 1 {
        assert forall j :: 0 <= j < |rows| ==> rows[j].name == upserted[j].name;
        assert UniquelyNamed(rows, listener.id, lbIndex);
        assert FindOvnLb(rows, listener.id).Some?;
        assert UniquelyNamed(rows, listener.id, FindOvnLb(rows, listener.id).value);
      }
      completions := completions + [Succeeded(Entity(ListenerKind, listener.id), false)];
    }

    method UpdateListener(oldListener: Listener, listener: Listener)
      modifies this
      ensures rows == old(rows)
      ensures completions == old(completions) +
                [if IsNative(listener.protocol) then Succeeded(Entity(ListenerKind, listener.id), false)
                 else Failed(Entity(ListenerKind, listener.id))]
    {
      if !IsNative(listener.protocol) {
        completions := completions + [Failed(Entity(ListenerKind, listener.id))];
      } else {
        completions := completions + [Succeeded(Entity(ListenerKind, listener.id), false)];
      }
    }

    /** A non-native listener succeeds (as deleted) without touching the
        store; a native one fails when its record is not uniquely found, and
        otherwise loses its record, leaving no row of that name. */
    method DeleteListener(listener: Listener)
      modifies this
      ensures !IsNative(listener.protocol) ==>
                rows == old(rows) && completions == old(completions) + [Succeeded(Entity(ListenerKind, listener.id), true)]
      ensures IsNative(listener.protocol) && FindOvnLb(old(rows), listener.id).None? ==>
                rows == old(rows) && completions == old(completions) + [Failed(Entity(ListenerKind, listener.id))]
      ensures IsNative(listener.protocol) && FindOvnLb(old(rows), listener.id).Some? ==>
                && rows == DeleteRow(old(rows), FindOvnLb(old(rows), listener.id).value)
                && Query(rows, listener.id) == []
                && completions == old(completions) + [Succeeded(Entity(ListenerKind, listener.id), true)]
    {
      if !IsNative(listener.protocol) {
        completions := completions + [Succeeded(Entity(ListenerKind, listener.id), true)];
        return;
      }
      var ovnLb := FindOvnLb(rows, listener.id);
      if ovnLb.None? {
        completions := completions + [Failed(Entity(ListenerKind, listener.id))];
        return;
      }
      var i := ovnLb.value;
      var lsName := SubnetSwitch(listener.loadbalancer.vipSubnetId);
      ghost var before := rows;
      rows := Detach(rows, i, lsName);
      assert forall j :: 0 <= j < |rows| ==> rows[j].name == before[j].name;
      rows := DeleteRow(rows, i);
      assert rows == DeleteRow(before, i);
      DeleteUniqueLeavesNone(before, listener.id, i);
      completions := completions + [Succeeded(Entity(ListenerKind, listener.id), true)];
    }

    // MemberManager

    /** A non-native member fails without touching the store, and so does a
        member whose listener record is not uniquely found. A record without
        the vip raises KeyError before any write. Otherwise the member's
        endpoint is appended to the vip's endpoints, the switch of the
        member's network is attached unless another member of the pool is
        on the same subnet, and the create succeeds. */
    method CreateMember(member: Member, pool: Pool) returns (exit: Exit)
      modifies this
      ensures !IsNative(pool.protocol) ==>
                && exit == Returned && rows == old(rows)
                && completions == old(completions) + [Failed(Entity(MemberKind, member.id))]
      ensures IsNative(pool.protocol) && FindOvnLb(old(rows), pool.listener.id).None? ==>
                && exit == Returned && rows == old(rows)
                && completions == old(completions) + [Failed(Entity(MemberKind, member.id))]
      ensures IsNative(pool.protocol) && FindOvnLb(old(rows), pool.listener.id).Some? ==>
                var i := FindOvnLb(old(rows), pool.listener.id).value;
                var vip := Socket(pool.loadbalancer.vipAddress, pool.listener.protocolPort);
                if vip !in old(rows)[i].vips then
                  exit == KeyError(vip) && rows == old(rows) && completions == old(completions)
                else
                  var endpoints := Decode(old(rows)[i].vips[vip]) + [Socket(member.address, member.protocolPort)];
                  && exit == Returned
                  && |rows| == |old(rows)|
                  && rows[i].name == pool.listener.id
                  && rows[i].vips == old(rows)[i].vips[vip := Join(endpoints)]
                  && rows[i].switches == SwitchesAfterAttach(old(rows)[i].switches, pool.members, member, networkOf)
                  && (forall j :: 0 <= j < |rows| && j != i ==> rows[j] == old(rows)[j])
                  && completions == old(completions) + [Succeeded(Entity(MemberKind, member.id), false)]
    {
      if !IsNative(pool.protocol) {
        completions := completions + [Failed(Entity(MemberKind, member.id))];
        return Returned;
      }
      var vip := Socket(pool.loadbalancer.vipAddress, pool.listener.protocolPort);
      var ip := Socket(member.address, member.protocolPort);
      var ovnLb := FindOvnLb(rows, pool.listener.id);
      if ovnLb.None? {
        completions := completions + [Failed(Entity(MemberKind, member.id))];
        return Returned;
      }
      var i := ovnLb.value;
      if vip !in rows[i].vips {
        return KeyError(vip);
      }
      var vipListenerIps := Decode(rows[i].vips[vip]);
      vipListenerIps := vipListenerIps + [ip];
      var name := rows[i].name;
      UniqueIsUpserted(rows, name, i);
      rows := UpsertVip(rows, name, vip, Join(vipListenerIps));
      if member.subnetId !in OtherSubnetIds(pool.members, member.id) {
        rows := Attach(rows, i, SubnetSwitch(member.subnetId));
      }
      completions := completions + [Succeeded(Entity(MemberKind, member.id), false)];
      return Returned;
    }

    method UpdateMember(oldMember: Member, member: Member, pool: Pool)
      modifies this
      ensures rows == old(rows)
      ensures completions == old(completions) +
                [if IsNative(pool.protocol) then Succeeded(Entity(MemberKind, member.id), false)
                 else Failed(Entity(MemberKind, member.id))]
    {
      if !IsNative(pool.protocol) {
        completions := completions + [Failed(Entity(MemberKind, member.id))];
      } else {
        completions := completions + [Succeeded(Entity(MemberKind, member.id), false)];
      }
    }

    /** A non-native member succeeds (as deleted) without touching the store.
        A native one returns silently, with no write and no completion, when
        its listener record is not uniquely found or its endpoint is not in
        the split vip field; a record without the vip raises KeyError.
        Otherwise the first occurrence of the endpoint is removed, the
        member's network switch is detached unless another member of the
        pool is on the same subnet, and the delete succeeds. */
    method DeleteMember(member: Member, pool: Pool) returns (exit: Exit)
      modifies this
      ensures !IsNative(pool.protocol) ==>
                && exit == Returned && rows == old(rows)
                && completions == old(completions) + [Succeeded(Entity(MemberKind, member.id), true)]
      ensures IsNative(pool.protocol) && FindOvnLb(old(rows), pool.listener.id).None? ==>
                exit == Returned && rows == old(rows) && completions == old(completions)
      ensures IsNative(pool.protocol) && FindOvnLb(old(rows), pool.listener.id).Some? ==>
                var i := FindOvnLb(old(rows), pool.listener.id).value;
                var vip := Socket(pool.loadbalancer.vipAddress, pool.listener.protocolPort);
                var ip := Socket(member.address, member.protocolPort);
                if vip !in old(rows)[i].vips then
                  exit == KeyError(vip) && rows == old(rows) && completions == old(completions)
                else if ip !in Split(old(rows)[i].vips[vip]) then
                  exit == Returned && rows == old(rows) && completions == old(completions)
                else
                  var endpoints := RemoveFirst(Split(old(rows)[i].vips[vip]), ip);
                  && exit == Returned
                  && |rows| == |old(rows)|
                  && rows[i].name == pool.listener.id
                  && rows[i].vips == old(rows)[i].vips[vip := Join(endpoints)]
                  && rows[i].switches == SwitchesAfterDetach(old(rows)[i].switches, pool.members, member, networkOf)
                  && (forall j :: 0 <= j < |rows| && j != i ==> rows[j] == old(rows)[j])
                  && completions == old(completions) + [Succeeded(Entity(MemberKind, member.id), true)]
    {
      if !IsNative(pool.protocol) {
        completions := completions + [Succeeded(Entity(MemberKind, member.id), true)];
        return Returned;
      }
      var vip := Socket(pool.loadbalancer.vipAddress, pool.listener.protocolPort);
      var ip := Socket(member.address, member.protocolPort);
      var ovnLb := FindOvnLb(rows, pool.listener.id);
      if ovnLb.None? {
        return Returned;
      }
      var i := ovnLb.value;
      if vip !in rows[i].vips {
        return KeyError(vip);
      }
      var vipListenerIps := Split(rows[i].vips[vip]);
      if ip !in vipListenerIps {
        return Returned;
      }
      vipListenerIps := RemoveFirst(vipListenerIps, ip);
      var name := rows[i].name;
      UniqueIsUpserted(rows, name, i);
      rows := UpsertVip(rows, name, vip, Join(vipListenerIps));
      if member.subnetId !in OtherSubnetIds(pool.members, member.id) {
        rows := Detach(rows, i, SubnetSwitch(member.subnetId));
      }
      completions := completions + [Succeeded(Entity(MemberKind, member.id), true)];
      return Returned;
    }
  }
}
