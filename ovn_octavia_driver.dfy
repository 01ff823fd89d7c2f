/** The OVN driver variant built on the Octavia driver
    (`neutron_lbaas/drivers/ovn/driver_octavia.py`). A non-native (non-TCP)
    listener, pool or member is handed to the base Octavia manager; a native
    one is projected onto the Load_Balancer table, and no completion is
    reported by the OVN code itself. */
module OvnOctaviaDriver {
  import opened Domain
  import opened EndpointCodec
  import opened Northbound

  datatype Operation = Create | Update | Delete

  /** A call `super(...).create/update/delete(context, entity)` into the base
      Octavia manager. */
  datatype Delegation = Delegated(operation: Operation, entity: Entity)

  /** The row the handlers act on when `find_ovn_lb` (the raw query) found
      any: the first one, which is also the row `lb_add` updates by name. */
  lemma FirstMatchIsUpserted(rows: Table, name: string)
    requires Query(rows, name) != []
    ensures UpsertIndex(rows, name) == Query(rows, name)[0]
  {
    var first := Query(rows, name)[0];
    var u := UpsertIndex(rows, name);
    assert rows[first].name == name;
    assert u <= first;
    assert u < |rows|;
    assert u in Query(rows, name);
    assert forall k :: 0 < k < |Query(rows, name)| ==> first < Query(rows, name)[k];
  }

  class Driver {
    /** The Northbound Load_Balancer table. */
    var rows: Table
    /** The calls handed to the base Octavia managers, oldest first. */
    var delegations: seq<Delegation>
    /** `get_subnet(context, subnet_id)['network_id']` of the core plugin. */
    const networkOf: string -> string

    constructor (table: Table, networkOf: string -> string)
      ensures rows == table && delegations == []
      ensures forall s :: this.networkOf(s) == networkOf(s)
    {
      rows := table;
      delegations := [];
      this.networkOf := networkOf;
    }

    /** `find_ovn_lb`: every row named by the listener, in table order, with
        no uniqueness check. */
    function FindOvnLb(listenerId: string): (found: seq<nat>)
      reads this
      ensures forall i :: 0 <= i < |rows| ==> (rows[i].name == listenerId <==> i in found)
      ensures forall k :: 0 <= k < |found| ==> found[k] < |rows|
      ensures forall k, l :: 0 <= k < l < |found| ==> found[k] < found[l]
    {
      Query(rows, listenerId)
    }

    // ListenerManager

    /** A non-native listener is delegated; a native one upserts its record
        with the vip and an empty endpoint list. */
    method CreateListener(listener: Listener)
      modifies this
      ensures !IsNative(listener.protocol) ==>
                rows == old(rows) && delegations == old(delegations) + [Delegated(Create, Entity(ListenerKind, listener.id))]
      ensures IsNative(listener.protocol) ==>
                var vip := Socket(listener.loadbalancer.vipAddress, listener.protocolPort);
                var i := UpsertIndex(old(rows), listener.id);
                && rows == UpsertVip(old(rows), listener.id, vip, Join([]))
                && rows[i].name == listener.id && vip in rows[i].vips && rows[i].vips[vip] == []
                && delegations == old(delegations)
    {
      if !IsNative(listener.protocol) {
        delegations := delegations + [Delegated(Create, Entity(ListenerKind, listener.id))];
        return;
      }
      var vip := Socket(listener.loadbalancer.vipAddress, listener.protocolPort);
      var ips: seq<string> := [];
      rows := UpsertVip(rows, listener.id, vip, Join(ips));
    }

    method UpdateListener(oldListener: Listener, listener: Listener)
      modifies this
      ensures rows == old(rows)
      ensures delegations == old(delegations) +
                (if IsNative(listener.protocol) then [] else [Delegated(Update, Entity(ListenerKind, listener.id))])
    {
      if !IsNative(listener.protocol) {
        delegations := delegations + [Delegated(Update, Entity(ListenerKind, listener.id))];
        return;
      }
    }

    /** A non-native listener is delegated; a native one with a record loses
        the first row named by it; with none, nothing happens. */
    method DeleteListener(listener: Listener)
      modifies this
      ensures !IsNative(listener.protocol) ==>
                rows == old(rows) && delegations == old(delegations) + [Delegated(Delete, Entity(ListenerKind, listener.id))]
      ensures IsNative(listener.protocol) ==>
                && rows == (if Query(old(rows), listener.id) == [] then old(rows)
                            else DeleteRow(old(rows), Query(old(rows), listener.id)[0]))
                && delegations == old(delegations)
    {
      if !IsNative(listener.protocol) {
        delegations := delegations + [Delegated(Delete, Entity(ListenerKind, listener.id))];
        return;
      }
      var ovnLb := FindOvnLb(listener.id);
      if ovnLb == [] {
        return;
      }
      rows := DeleteRow(rows, ovnLb[0]);
    }

    // PoolManager: delegated when non-native, nothing at all when native.

    method CreatePool(pool: Pool)
      modifies this
      ensures rows == old(rows)
      ensures delegations == old(delegations) +
                (if IsNative(pool.protocol) then [] else [Delegated(Create, Entity(PoolKind, pool.id))])
    {
      if !IsNative(pool.protocol) {
        delegations := delegations + [Delegated(Create, Entity(PoolKind, pool.id))];
        return;
      }
    }

    method UpdatePool(oldPool: Pool, pool: Pool)
      modifies this
      ensures rows == old(rows)
      ensures delegations == old(delegations) +
                (if IsNative(pool.protocol) then [] else [Delegated(Update, Entity(PoolKind, pool.id))])
    {
      if !IsNative(pool.protocol) {
        delegations := delegations + [Delegated(Update, Entity(PoolKind, pool.id))];
        return;
      }
    }

    method DeletePool(pool: Pool)
      modifies this
      ensures rows == old(rows)
      ensures delegations == old(delegations) +
                (if IsNative(pool.protocol) then [] else [Delegated(Delete, Entity(PoolKind, pool.id))])
    {
      if !IsNative(pool.protocol) {
        delegations := delegations + [Delegated(Delete, Entity(PoolKind, pool.id))];
        return;
      }
    }

    // MemberManager

    /** A non-native member is delegated. A native one returns silently when
        no record is found, and raises KeyError when the first record has no
        such vip. Otherwise the member's endpoint is appended to the vip's
        endpoints and the switch of the load balancer's vip network (not the
        member's) is attached. */
    method CreateMember(member: Member, pool: Pool) returns (exit: Exit)
      modifies this
      ensures !IsNative(pool.protocol) ==>
                && exit == Returned && rows == old(rows)
                && delegations == old(delegations) + [Delegated(Create, Entity(MemberKind, member.id))]
      ensures IsNative(pool.protocol) ==> delegations == old(delegations)
      ensures IsNative(pool.protocol) && Query(old(rows), pool.listener.id) == [] ==>
                exit == Returned && rows == old(rows)
      ensures IsNative(pool.protocol) && Query(old(rows), pool.listener.id) != [] ==>
                var i := Query(old(rows), pool.listener.id)[0];
                var vip := Socket(pool.loadbalancer.vipAddress, pool.listener.protocolPort);
                if vip !in old(rows)[i].vips then
                  exit == KeyError(vip) && rows == old(rows)
                else
                  var endpoints := Decode(old(rows)[i].vips[vip]) + [Socket(member.address, member.protocolPort)];
                  && exit == Returned
                  && |rows| == |old(rows)|
                  && rows[i].name == pool.listener.id
                  && rows[i].vips == old(rows)[i].vips[vip := Join(endpoints)]
                  && rows[i].switches == old(rows)[i].switches + {SwitchName(networkOf(pool.loadbalancer.vipSubnetId))}
                  && (forall j :: 0 <= j < |rows| && j != i ==> rows[j] == old(rows)[j])
    {
      if !IsNative(pool.protocol) {
        delegations := delegations + [Delegated(Create, Entity(MemberKind, member.id))];
        return Returned;
      }
      var lbNetwork := networkOf(pool.loadbalancer.vipSubnetId);
      var vip := Socket(pool.loadbalancer.vipAddress, pool.listener.protocolPort);
      var ip := Socket(member.address, member.protocolPort);
      var ovnLb := FindOvnLb(pool.listener.id);
      if ovnLb == [] {
        return Returned;
      }
      var i := ovnLb[0];
      if vip !in rows[i].vips {
        return KeyError(vip);
      }
      var vipListenerIps := Decode(rows[i].vips[vip]);
      vipListenerIps := vipListenerIps + [ip];
      FirstMatchIsUpserted(rows, pool.listener.id);
      rows := UpsertVip(rows, pool.listener.id, vip, Join(vipListenerIps));
      rows := Attach(rows, i, SwitchName(lbNetwork));
      return Returned;
    }

    method UpdateMember(oldMember: Member, member: Member, pool: Pool)
      modifies this
      ensures rows == old(rows)
      ensures delegations == old(delegations) +
                (if IsNative(pool.protocol) then [] else [Delegated(Update, Entity(MemberKind, member.id))])
    {
      if !IsNative(pool.protocol) {
        delegations := delegations + [Delegated(Update, Entity(MemberKind, member.id))];
        return;
      }
    }

    /** A non-native member is delegated. A native one returns silently when
        no record is found or its endpoint is not in the split vip field, and
        raises KeyError when the first record has no such vip. Otherwise the
        first occurrence of the endpoint is removed; no switch is detached. */
    method DeleteMember(member: Member, pool: Pool) returns (exit: Exit)
      modifies this
      ensures !IsNative(pool.protocol) ==>
                && exit == Returned && rows == old(rows)
                && delegations == old(delegations) + [Delegated(Delete, Entity(MemberKind, member.id))]
      ensures IsNative(pool.protocol) ==> delegations == old(delegations)
      ensures IsNative(pool.protocol) && Query(old(rows), pool.listener.id) == [] ==>
                exit == Returned && rows == old(rows)
      ensures IsNative(pool.protocol) && Query(old(rows), pool.listener.id) != [] ==>
                var i := Query(old(rows), pool.listener.id)[0];
                var vip := Socket(pool.loadbalancer.vipAddress, pool.listener.protocolPort);
                var ip := Socket(member.address, member.protocolPort);
                if vip !in old(rows)[i].vips then
                  exit == KeyError(vip) && rows == old(rows)
                else if ip !in Split(old(rows)[i].vips[vip]) then
                  exit == Returned && rows == old(rows)
                else
                  && exit == Returned
                  && |rows| == |old(rows)|
                  && rows[i].name == pool.listener.id
                  && rows[i].vips == old(rows)[i].vips[vip := Join(RemoveFirst(Split(old(rows)[i].vips[vip]), ip))]
                  && rows[i].switches == old(rows)[i].switches
                  && (forall j :: 0 <= j < |rows| && j != i ==> rows[j] == old(rows)[j])
    {
      if !IsNative(pool.protocol) {
        delegations := delegations + [Delegated(Delete, Entity(MemberKind, member.id))];
        return Returned;
      }
      var vip := Socket(pool.loadbalancer.vipAddress, pool.listener.protocolPort);
      var ip := Socket(member.address, member.protocolPort);
      var ovnLb := FindOvnLb(pool.listener.id);
      if ovnLb == [] {
        return Returned;
      }
      var i := ovnLb[0];
      if vip !in rows[i].vips {
        return KeyError(vip);
      }
      var vipListenerIps := Split(rows[i].vips[vip]);
      if ip !in vipListenerIps {
        return Returned;
      }
      vipListenerIps := RemoveFirst(vipListenerIps, ip);
      FirstMatchIsUpserted(rows, pool.listener.id);
      rows := UpsertVip(rows, pool.listener.id, vip, Join(vipListenerIps));
      return Returned;
    }
  }
}
