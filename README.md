# OVN load-balancer drivers for neutron-lbaas, modelled in Dafny

This project models the reconciliation logic of the two OVN drivers of
neutron-lbaas. The plain LBaaS v2 driver is `driver.py`. The variant built on
the Octavia driver is `driver_octavia.py`.

Both drivers project load-balancer lifecycle events onto rows of the OVN
Northbound `Load_Balancer` table:

- A native (TCP) listener owns one row, named by the listener id.
- The row's `vips` column maps `"vip_address:port"` to the comma-joined
  `"member_address:port"` endpoints of the listener's pool.
- The row is attached to logical switches named `"neutron-" + network_id`.

The model is split into five modules:

- `Domain` (`domain.dfy`) holds the domain objects and the completion signals.
  It also holds the protocol gate (`ovn_native_protocols = [TCP]`).
- `EndpointCodec` (`endpoint_codec.dfy`) reproduces Python's `str.split(',')`
  and `','.join`. It also holds the member-create decoding (an empty field
  gives `[]`), `str(port)` and `list.remove`. It proves both round trips and
  that a member create followed by a delete of a new, comma-free endpoint
  restores the stored field.
- `Northbound` (`northbound.dfy`) is the `Load_Balancer` table as an ordered
  `seq` of rows, where a row is identified by its position. The ovsdbapp
  commands become functions from table to table:
  - `db_find` by name;
  - `lb_add` with `may_exist`, which upserts the first row of that name;
  - `ls_lb_add` / `ls_lb_del` with `may_exist` / `if_exists`;
  - `lb_del`.
- `OvnDriver` (`ovn_driver.dfy`) models `driver.py`. The class `Driver` holds
  the table and the log of completions, and has one method per handler of the
  five managers. `find_ovn_lb` accepts only a unique match.
  `_get_s_ids_of_other_members` drives the reference-counted attach and detach
  of member switches.
- `OvnOctaviaDriver` (`ovn_octavia_driver.dfy`) models `driver_octavia.py`.
  Its `Driver` holds the table and a log of calls delegated to the base
  Octavia managers. `find_ovn_lb` returns the raw query.

The domain and the external collaborators are modelled as follows:

- **Subnet lookup.** `get_subnet(context, id)['network_id']` is the constant
  function `networkOf` given to each driver at construction.
- **Member's pool.** `member.pool` is the separate `Pool` argument of the
  member handlers. A Dafny value cannot contain itself, and the pool's member
  list holds the member.
- **Python KeyError.** `ovn_lb.vips[vip]` raises `KeyError` when the record
  has no such vip. The member handlers return `Exit.KeyError` in that case,
  and the raise happens before any write or completion.

Reference counting is per subnet id, but attachment is per network. So the
property "a switch is attached exactly when the vip or some member of the pool
is on its network" holds only under two conditions. First, no two subnets of a
pool share a network. Second, no member sits on the vip's network.
`OvnDriver.DeleteKeepsSegmentsCounted` proves the property under both
conditions. `OvnDriver.IntendedDeleteKeepsSegmentsCounted` proves it on every
pool for a corrected decision that tests the network. "## Findings" shows,
with two concrete inputs, what the member delete does when either condition
fails.

In these places the model follows what the code does, not what a reader might
expect:

- On several matches, `find_ovn_lb` returns None. It raises no consistency
  fault.
- Member delete with a missing record or an absent endpoint returns without
  any completion.
- Member create in `driver_octavia.py` attaches the vip network's switch and
  does no reference counting.

## Model

| member | source | states |
|---|---|---|
| Domain.IsNative | neutron_lbaas/drivers/ovn/driver.py:74 | a protocol is handled natively exactly when it is TCP |
| EndpointCodec.Split | neutron_lbaas/drivers/ovn/driver.py:266 | `str.split(',')` yields at least one piece (`['']` for an empty field), and no piece contains a comma |
| EndpointCodec.Join | neutron_lbaas/drivers/ovn/driver.py:229-231 | the comma-joined field that `lb_add` stores begins with the first endpoint |
| EndpointCodec.Decode | neutron_lbaas/drivers/ovn/driver.py:221-225 | the decoded list is empty exactly when the field is empty, and holds no comma |
| EndpointCodec.JoinSplit | neutron_lbaas/drivers/ovn/driver.py:266-275 | joining the pieces of any split field gives back the field |
| EndpointCodec.SplitJoin | neutron_lbaas/drivers/ovn/driver.py:266-275 | splitting the join of a non-empty, comma-free list gives back the list |
| EndpointCodec.DecodeJoin | neutron_lbaas/drivers/ovn/driver.py:221-231 | round trip: a list of non-empty, comma-free endpoints decodes back from its encoding |
| EndpointCodec.JoinDecode | neutron_lbaas/drivers/ovn/driver.py:221-231 | round trip: every field is the encoding of its decoding |
| EndpointCodec.DecimalString | neutron_lbaas/drivers/ovn/driver.py:151 | `str(port)` is a non-empty string of decimal digits |
| EndpointCodec.DecimalRoundTrip | neutron_lbaas/drivers/ovn/driver.py:151 | the digits of `str(port)` denote the port again, so no two ports print alike |
| EndpointCodec.Socket | neutron_lbaas/drivers/ovn/driver.py:209-212 | `address + ':' + str(port)`: the address, a colon, then exactly `str(port)`; no comma when the address has none |
| EndpointCodec.SocketInjective | neutron_lbaas/drivers/ovn/driver.py:150-151 | two ports on one address give different sockets, so listeners on different ports of one load balancer get different vip keys |
| EndpointCodec.IndexOf | neutron_lbaas/drivers/ovn/driver.py:267-271 | the position `remove` strikes holds the endpoint and no earlier position does |
| EndpointCodec.RemoveFirst | neutron_lbaas/drivers/ovn/driver.py:271 | `remove` drops exactly the first occurrence and keeps the rest in order |
| EndpointCodec.RemoveFirstCount | neutron_lbaas/drivers/ovn/driver.py:271 | `remove` takes out one copy of the endpoint and keeps every other element |
| EndpointCodec.RemoveAppended | neutron_lbaas/drivers/ovn/driver.py:227 | removing an endpoint appended to a list not holding it gives the list back |
| EndpointCodec.AppendThenRemove | neutron_lbaas/drivers/ovn/driver.py:221-275 | member create then member delete of a fresh endpoint leaves the vip field as it was |
| Northbound.SwitchName | neutron_lbaas/drivers/ovn/driver.py:158-160 | the switch name is the network id behind the prefix `neutron-`, so the id can be read back; `SwitchNameInjective` proves from this that distinct networks get distinct switches. The same name is built at driver.py:184-186, 234-236 and 278-280 and at driver_octavia.py:142-143 and 168 |
| OvnDriver.Driver.SubnetSwitch | neutron_lbaas/drivers/ovn/driver.py:234-236 | the switch of a subnet is `neutron-` followed by the subnet's network id from the core plugin's `get_subnet` |
| Northbound.SwitchNameInjective | neutron_lbaas/drivers/ovn/driver.py:236 | distinct networks have distinct `neutron-` switch names |
| Northbound.Query | neutron_lbaas/drivers/ovn/driver.py:87-90 | `db_find` by name yields exactly the positions of the rows with that name, in table order |
| Northbound.AtMostOneMatch | neutron_lbaas/drivers/ovn/driver.py:87-92 | a query with at most one result means no two rows share the name |
| Northbound.UpsertIndex | neutron_lbaas/drivers/ovn/driver.py:154-156 | `lb_add` acts on the first row with the name, or appends a new row when there is none |
| Northbound.UpsertVip | neutron_lbaas/drivers/ovn/driver.py:229-231 | `lb_add(may_exist=True)` replaces that row's entry for the vip wholesale and keeps its other vips, its switches and every other row |
| Northbound.Attach | neutron_lbaas/drivers/ovn/driver.py:163-164 | `ls_lb_add(may_exist=True)` adds the switch to the row only, and changes nothing when it is already there |
| Northbound.Detach | neutron_lbaas/drivers/ovn/driver.py:189-190 | `ls_lb_del(if_exists=True)` removes the switch from the row only, and changes nothing when it is absent |
| Northbound.DeleteRow | neutron_lbaas/drivers/ovn/driver.py:191-192 | `lb_del` removes that one row and keeps the others in order |
| Northbound.UpsertVipIdempotent | neutron_lbaas/drivers/ovn/driver.py:154-156 | repeating an upsert with the same arguments changes nothing further |
| Northbound.QueryAbsent | neutron_lbaas/drivers/ovn/driver.py:87-90 | a name that no row carries is found nowhere |
| Northbound.QueryUnique | neutron_lbaas/drivers/ovn/driver.py:87-90 | the query for a name held by one row yields exactly that row |
| Northbound.DeleteUniqueLeavesNone | neutron_lbaas/drivers/ovn/driver.py:178-192 | deleting the only row of a name leaves no row of that name |
| OvnDriver.FindOvnLb | neutron_lbaas/drivers/ovn/driver.py:86-92 | a row is returned exactly when one row alone has the listener's name, and it is that row; none or several give None |
| OvnDriver.OtherSubnetIds | neutron_lbaas/drivers/ovn/driver.py:198-199 | a subnet is listed exactly when another member of the pool, by id, is on it |
| OvnDriver.CreateKeepsSegmentsCounted | neutron_lbaas/drivers/ovn/driver.py:233-241 | the create's attach decision keeps the row attached to the vip switch and the switches of all members, including the new one |
| OvnDriver.SwitchesAfterAttach | neutron_lbaas/drivers/ovn/driver.py:233-241 | the create's attach decision only ever adds the member's own switch: it adds nothing when another member of the pool is on the same subnet, and otherwise the switch is attached afterwards |
| OvnDriver.SwitchesAfterDetach | neutron_lbaas/drivers/ovn/driver.py:277-285 | the delete's detach decision only ever removes the member's own switch: it removes nothing when another member of the pool is on the same subnet, and otherwise the switch is detached afterwards |
| OvnDriver.MemberSwitchesSplit | neutron_lbaas/drivers/ovn/driver.py:198-199 | with unique member ids, the switches of all members are those of the other members plus the member's own |
| OvnDriver.DeleteDetachesSharedNetwork | neutron_lbaas/drivers/ovn/driver.py:277-285 | counterexample: when members on two subnets share one network, deleting one of them detaches the switch the other still sits on |
| OvnDriver.DeleteDetachesVipSwitch | neutron_lbaas/drivers/ovn/driver.py:277-285 | counterexample: when the only member sits on the vip's network, deleting it detaches the vip switch |
| OvnDriver.IntendedSwitchesAfterDetach | neutron_lbaas/drivers/ovn/driver.py:277-285 | the corrected detach decision keeps the member's switch while the vip or another member is on its network, and otherwise removes only that switch |
| OvnDriver.IntendedDeleteKeepsSegmentsCounted | neutron_lbaas/drivers/ovn/driver.py:277-285 | on every pool with unique member ids, the corrected decision leaves exactly the vip switch and the remaining members' switches |
| OvnDriver.DeleteKeepsSegmentsCounted | neutron_lbaas/drivers/ovn/driver.py:277-285 | with one member subnet per network, none on the vip network, the delete's detach decision leaves exactly the vip switch and the remaining members' switches |
| OvnDriver.UpsertKeepsUnique | neutron_lbaas/drivers/ovn/driver.py:154-156 | an upsert on a table with at most one row of the name leaves exactly one such row, the one written |
| OvnDriver.UniqueIsUpserted | neutron_lbaas/drivers/ovn/driver.py:229-231 | the row `find_ovn_lb` returns is the row `lb_add` updates by the same name |
| OvnDriver.Driver.constructor | neutron_lbaas/drivers/ovn/driver.py:66-75 | the driver starts on the given table with no completions and the given subnet lookup |
| OvnDriver.Driver.CreateLoadBalancer | neutron_lbaas/drivers/ovn/driver.py:97-98 | success reported, store untouched |
| OvnDriver.Driver.UpdateLoadBalancer | neutron_lbaas/drivers/ovn/driver.py:100-101 | success reported, store untouched |
| OvnDriver.Driver.DeleteLoadBalancer | neutron_lbaas/drivers/ovn/driver.py:103-104 | success with delete reported, store untouched |
| OvnDriver.Driver.CreatePool | neutron_lbaas/drivers/ovn/driver.py:115-119 | failure for a non-native listener protocol, otherwise success; store untouched |
| OvnDriver.Driver.UpdatePool | neutron_lbaas/drivers/ovn/driver.py:121-125 | failure for a non-native listener protocol, otherwise success; store untouched |
| OvnDriver.Driver.DeletePool | neutron_lbaas/drivers/ovn/driver.py:127-128 | success with delete reported, store untouched |
| OvnDriver.Driver.CreateHealthMonitor | neutron_lbaas/drivers/ovn/driver.py:133-134 | success reported, store untouched |
| OvnDriver.Driver.UpdateHealthMonitor | neutron_lbaas/drivers/ovn/driver.py:136-137 | success reported, store untouched |
| OvnDriver.Driver.DeleteHealthMonitor | neutron_lbaas/drivers/ovn/driver.py:139-140 | success with delete reported, store untouched |
| OvnDriver.Driver.CreateListener | neutron_lbaas/drivers/ovn/driver.py:145-165 | non-native: failure and no store write. Native: the record named by the listener holds the vip with an empty endpoint list and the vip switch, is then the unique match of `find_ovn_lb`, and success is reported |
| OvnDriver.Driver.UpdateListener | neutron_lbaas/drivers/ovn/driver.py:167-171 | failure for a non-native protocol, otherwise success; store untouched |
| OvnDriver.Driver.DeleteListener | neutron_lbaas/drivers/ovn/driver.py:173-193 | non-native: success with delete, no store change. Native: failure when the record is not uniquely found; otherwise the record is gone, no row of that name remains, and success with delete is reported |
| OvnDriver.Driver.CreateMember | neutron_lbaas/drivers/ovn/driver.py:201-242 | non-native or no unique record: failure, no write. Missing vip: KeyError, nothing changed. Otherwise the endpoint is appended after the decoded list, other vips and rows are kept, the member's switch is attached only without a same-subnet sibling, and success is reported |
| OvnDriver.Driver.UpdateMember | neutron_lbaas/drivers/ovn/driver.py:244-248 | failure for a non-native pool protocol, otherwise success; store untouched |
| OvnDriver.Driver.DeleteMember | neutron_lbaas/drivers/ovn/driver.py:250-287 | non-native: success with delete, no write. No unique record or endpoint absent: silent return, no write, no completion. Missing vip: KeyError. Otherwise the first occurrence is removed, the switch is detached only without a same-subnet sibling, and success with delete is reported |
| OvnOctaviaDriver.FirstMatchIsUpserted | neutron_lbaas/drivers/ovn/driver_octavia.py:150-166 | the first row the query finds is the row `lb_add` updates by the listener's name |
| OvnOctaviaDriver.Driver.constructor | neutron_lbaas/drivers/ovn/driver_octavia.py:61-68 | the driver starts on the given table with no delegations and the given subnet lookup |
| OvnOctaviaDriver.Driver.FindOvnLb | neutron_lbaas/drivers/ovn/driver_octavia.py:70-75 | the raw query: exactly the rows named by the listener, however many |
| OvnOctaviaDriver.Driver.CreateListener | neutron_lbaas/drivers/ovn/driver_octavia.py:80-90 | non-native: delegated, store untouched. Native: the record named by the listener holds the vip with an empty endpoint list; no completion |
| OvnOctaviaDriver.Driver.UpdateListener | neutron_lbaas/drivers/ovn/driver_octavia.py:93-97 | non-native: delegated; native: nothing; store untouched |
| OvnOctaviaDriver.Driver.DeleteListener | neutron_lbaas/drivers/ovn/driver_octavia.py:100-111 | non-native: delegated, store untouched. Native: the first row named by the listener is deleted, or nothing happens when there is none |
| OvnOctaviaDriver.Driver.CreatePool | neutron_lbaas/drivers/ovn/driver_octavia.py:116-119 | non-native: delegated; native: nothing; store untouched |
| OvnOctaviaDriver.Driver.UpdatePool | neutron_lbaas/drivers/ovn/driver_octavia.py:122-125 | non-native: delegated; native: nothing; store untouched |
| OvnOctaviaDriver.Driver.DeletePool | neutron_lbaas/drivers/ovn/driver_octavia.py:128-131 | non-native: delegated; native: nothing; store untouched |
| OvnOctaviaDriver.Driver.CreateMember | neutron_lbaas/drivers/ovn/driver_octavia.py:137-172 | non-native: delegated. No record: silent return. Missing vip: KeyError. Otherwise the endpoint is appended, the load balancer's vip switch is attached unconditionally, and the rest of the table is kept |
| OvnOctaviaDriver.Driver.UpdateMember | neutron_lbaas/drivers/ovn/driver_octavia.py:175-178 | non-native: delegated; native: nothing; store untouched |
| OvnOctaviaDriver.Driver.DeleteMember | neutron_lbaas/drivers/ovn/driver_octavia.py:181-206 | non-native: delegated. No record or endpoint absent: silent return. Missing vip: KeyError. Otherwise the first occurrence is removed and no switch is detached |

## Findings

| source | as written | input that shows it | evidently intended | confidence | as-written member | corrected member |
|---|---|---|---|---|---|---|
| neutron_lbaas/drivers/ovn/driver.py:277-285 | the member's switch is detached when no other member of the pool is on the same subnet id | members `a` on subnet S1 and `b` on S2, both on network N, and delete `a`: the switch of N is detached while `b` is still on N (`OvnDriver.DeleteDetachesSharedNetwork`). The only member on the vip's network, deleted: the vip switch is detached (`OvnDriver.DeleteDetachesVipSwitch`) | a switch stays attached while the vip or some remaining member is on its network | not executed | OvnDriver.Driver.DeleteMember | OvnDriver.IntendedDeleteKeepsSegmentsCounted |

`OvnDriver.Driver.DeleteMember` keeps the detach decision the code makes,
`OvnDriver.SwitchesAfterDetach`. The two counterexample lemmas exhibit it on
the inputs above. `OvnDriver.IntendedSwitchesAfterDetach` is the corrected
decision, which tests the network instead of the subnet id.
`OvnDriver.IntendedDeleteKeepsSegmentsCounted` proves the intended property
for it on every pool. `OvnDriver.DeleteKeepsSegmentsCounted` names the pools
on which the decision as written is already right.

## Left out

- Configuration options and their registration (`ovn_opts`): configuration plumbing.
- `get_ovn_nbdb_connection` and the lazy `ovn_nbdb_api` property: OVSDB transport and ML2 plumbing.
- ovsdbapp command objects, transactions and `execute(check_error=True)`: these are reduced to their effect on the table. Row uuids are replaced by positions in the table. A transport or commit error is not modelled.
- `ls_get`: the logical switch is assumed to exist. Its failure after a successful `lb_add` is not modelled.
- The base classes' completion bookkeeping and the `@async_op` decorator: a completion is an entry appended to a log, and a delegation to the base Octavia manager is an entry appended to a log.
- `LoadBalancerManager.refresh` and `stats`: they do nothing, so there is nothing to model.
- The load-balancer and health-monitor managers the Octavia variant inherits from the Octavia driver: they are not part of `driver_octavia.py`.
- Concurrency: two events on the same record can race between the read and the write. The model runs one handler at a time.
- Source defects, modelled as evidently intended rather than as crashes:
  - `PoolManager` reports failure on an undefined `listener`; the model reports it for the pool.
  - `driver_octavia.py` has missing imports and uses `self.driver` on the driver itself; the model reads its own table.
  - `driver_octavia.py` concatenates a port integer to a string; the model uses `str(port)`.
  - The octavia member update passes an undefined `pool`; the model delegates the member.
  - The octavia member handlers take the vip port from `member.pool.protocol_port` and the misspelt `lprotocol_port`; the model uses the listener's port, as `driver.py` does.
  - The octavia handlers use the list returned by `find_ovn_lb` as if it were a row; the model uses its first row.
  - The octavia `lb_add` calls pass the vip where the record name belongs; the model upserts the record named by the listener id.
- OvnDriver.Driver.CreateListener: the "unique match afterwards" clause only covers tables that held at most one row of the listener's name before the create.
- OvnDriver.DeleteKeepsSegmentsCounted: the invariant is stated only for pools with one subnet per network and no member on the vip network, because otherwise the source breaks it.
