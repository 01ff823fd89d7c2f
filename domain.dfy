/** The load-balancing domain objects the host framework hands to the OVN
    drivers, the completion signals the drivers send back, and the protocol
    gate both drivers share. */
module Domain {

  datatype Option<T> = None | Some(value: T)

  type Protocol = string

  /** The value of neutron-lbaas's PROTOCOL_TCP constant. */
  const PROTOCOL_TCP: Protocol := "TCP"

  /** Both drivers set `ovn_native_protocols` to exactly this list. */
  const NATIVE_PROTOCOLS: seq<Protocol> := [PROTOCOL_TCP]

  /** The protocol gate: `protocol in self.driver.ovn_native_protocols`. */
  predicate IsNative(protocol: Protocol)
    ensures IsNative(protocol) <==> protocol == PROTOCOL_TCP
  {
    protocol in NATIVE_PROTOCOLS
  }

  datatype LoadBalancer = LoadBalancer(id: string, vipAddress: string, vipSubnetId: string)

  datatype Listener = Listener(id: string, protocol: Protocol, protocolPort: nat, loadbalancer: LoadBalancer)

  datatype Member = Member(id: string, address: string, protocolPort: nat, subnetId: string)

  /** A pool with its current members; `member.pool` in the source is passed
      to the member handlers as a separate Pool value. */
  datatype Pool = Pool(id: string, protocol: Protocol, listener: Listener, loadbalancer: LoadBalancer,
                       members: seq<Member>)

  datatype HealthMonitor = HealthMonitor(id: string)

  datatype Kind = LoadBalancerKind | ListenerKind | PoolKind | MemberKind | HealthMonitorKind

  datatype Entity = Entity(kind: Kind, id: string)

  /** `successful_completion(context, entity, delete=...)` and
      `failed_completion(context, entity)`. */
  datatype Completion = Succeeded(entity: Entity, delete: bool) | Failed(entity: Entity)

  /** How a handler leaves: by returning, or by the KeyError that Python
      raises on `ovn_lb.vips[vip]` when the record has no such vip. */
  datatype Exit = Returned | KeyError(key: string)
}
