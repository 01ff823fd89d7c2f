/** The OVN Northbound `Load_Balancer` table as the drivers see it, and the
    ovsdbapp commands they issue against it (`db_find`, `lb_add` with
    `may_exist`, `ls_lb_add` with `may_exist`, `ls_lb_del` with `if_exists`,
    `lb_del`) as functions from table to table. A row is identified by its
    position in the table. */
module Northbound {
  import opened Domain

  /** One Load_Balancer row: its name, the `vips` column mapping
      "vip_address:port" to the comma-joined endpoints, and the logical
      switches it is attached to. */
  datatype LbRow = LbRow(name: string, vips: map<string, string>, switches: set<string>)

  type Table = seq<LbRow>

  /** The logical switch OVN keeps for a Neutron network: the network id
      behind a fixed "neutron-" prefix, so the id can be read back. */
  function SwitchName(networkId: string): (name: string)
    ensures |name| == 8 + |networkId|
    ensures name[..8] == "neutron-" && name[8..] == networkId
  {
    "neutron-" + networkId
  }

  lemma SwitchNameInjective(a: string, b: string)
    ensures SwitchName(a) == SwitchName(b) ==> a == b
  {
    assert SwitchName(a)[8..] == a;
    assert SwitchName(b)[8..] == b;
  }

  /** `db_find('Load_Balancer', ('name', '=', name))`: the positions of all
      rows with that name, in table order. */
  function Query(rows: Table, name: string): (found: seq<nat>)
    ensures forall k :: 0 <= k < |found| ==> found[k] < |rows| && rows[found[k]].name == name
    ensures forall i :: 0 <= i < |rows| && rows[i].name == name ==> i in found
    ensures forall k, l :: 0 <= k < l < |found| ==> found[k] < found[l]
    decreases |rows|
  {
    if rows == [] then []
    else
      var n := |rows| - 1;
      var front := rows[..n];
      assert forall i :: 0 <= i < n ==> front[i] == rows[i];
      Query(front, name) + (if rows[n].name == name then [n] else [])
  }

  /** Row i is the one and only row called name. */
  predicate UniquelyNamed(rows: Table, name: string, i: int) {
    0 <= i < |rows| && rows[i].name == name &&
    forall j :: 0 <= j < |rows| && rows[j].name == name ==> j == i
  }

  /** If the query finds at most one row, no two rows share the name. */
  lemma AtMostOneMatch(rows: Table, name: string, i: nat, j: nat)
    requires |Query(rows, name)| <= 1
    requires i < |rows| && rows[i].name == name
    requires j < |rows| && rows[j].name == name
    ensures i == j
  {
    var found := Query(rows, name);
    assert i in found && j in found;
  }

  /** The row `lb_add` works on: the first row with the name, or |rows| when
      there is none and a row will be inserted. */
  function UpsertIndex(rows: Table, name: string): (i: nat)
    ensures i <= |rows|
    ensures i < |rows| ==> rows[i].name == name
    ensures forall j :: 0 <= j < i ==> rows[j].name != name
  {
    var found := Query(rows, name);
    if found == [] then |rows|
    else
      assert forall k :: 0 < k < |found| ==> found[0] < found[k];
      found[0]
  }

  /** `lb_add(name, vip, ips, may_exist=True)` storing the joined field:
      the first row with the name gets `vips[vip] := field`, wholesale, and
      keeps everything else; with no such row a new one is appended. */
  function UpsertVip(rows: Table, name: string, vip: string, field: string): (updated: Table)
    ensures var i := UpsertIndex(rows, name);
            && |updated| == (if i < |rows| then |rows| else |rows| + 1)
            && updated[i].name == name
            && updated[i].vips == (if i < |rows| then rows[i].vips else map[])[vip := field]
            && updated[i].switches == (if i < |rows| then rows[i].switches else {})
            && forall j :: 0 <= j < |rows| && j != i ==> updated[j] == rows[j]
  {
    var i := UpsertIndex(rows, name);
    if i < |rows| then rows[i := rows[i].(vips := rows[i].vips[vip := field])]
    else rows + [LbRow(name, map[vip := field], {})]
  }

  /** `ls_lb_add(switch, lb, may_exist=True)`: adds the switch to row i and
      changes nothing when it is already attached. */
  function Attach(rows: Table, i: nat, switch: string): (updated: Table)
    requires i < |rows|
    ensures |updated| == |rows|
    ensures updated[i].name == rows[i].name && updated[i].vips == rows[i].vips
    ensures updated[i].switches == rows[i].switches + {switch}
    ensures forall j :: 0 <= j < |rows| && j != i ==> updated[j] == rows[j]
    ensures switch in rows[i].switches ==> updated == rows
  {
    var row := rows[i];
    assert switch in row.switches ==> row.(switches := row.switches + {switch}) == row;
    rows[i := row.(switches := row.switches + {switch})]
  }

  /** `ls_lb_del(switch, lb, if_exists=True)`: removes the switch from row i
      and changes nothing when it is not attached. */
  function Detach(rows: Table, i: nat, switch: string): (updated: Table)
    requires i < |rows|
    ensures |updated| == |rows|
    ensures updated[i].name == rows[i].name && updated[i].vips == rows[i].vips
    ensures updated[i].switches == rows[i].switches - {switch}
    ensures forall j :: 0 <= j < |rows| && j != i ==> updated[j] == rows[j]
    ensures switch !in rows[i].switches ==> updated == rows
  {
    var row := rows[i];
    assert switch !in row.switches ==> row.(switches := row.switches - {switch}) == row;
    rows[i := row.(switches := row.switches - {switch})]
  }

  /** `lb_del(lb)`: row i leaves the table, the others keep their order. */
  function DeleteRow(rows: Table, i: nat): (updated: Table)
    requires i < |rows|
    ensures |updated| == |rows| - 1
    ensures forall j :: 0 <= j < i ==> updated[j] == rows[j]
    ensures forall j :: i <= j < |updated| ==> updated[j] == rows[j + 1]
  {
    rows[..i] + rows[i + 1..]
  }

  /** `lb_add` with `may_exist` is idempotent: repeating the same upsert
      leaves the table as the first one did. */
  lemma UpsertVipIdempotent(rows: Table, name: string, vip: string, field: string)
    ensures UpsertVip(UpsertVip(rows, name, vip, field), name, vip, field) == UpsertVip(rows, name, vip, field)
  {
    var once := UpsertVip(rows, name, vip, field);
    var i := UpsertIndex(rows, name);
    assert forall j :: 0 <= j < i ==> once[j].name != name by {
      forall j | 0 <= j < i ensures once[j].name != name {
        assert once[j] == rows[j];
      }
    }
    var i' := UpsertIndex(once, name);
    assert i' == i by {
      assert i' <= i;
      assert i' >= i;
    }
    var row := once[i];
    assert row.vips[vip := field] == row.vips;
    assert once[i := row.(vips := row.vips[vip := field])] == once;
  }

  /** A name no row carries is found nowhere. */
  lemma {:induction false} QueryAbsent(rows: Table, name: string)
    requires forall j :: 0 <= j < |rows| ==> rows[j].name != name
    ensures Query(rows, name) == []
    decreases |rows|
  {
    if rows != [] {
      var n := |rows| - 1;
      QueryAbsent(rows[..n], name);
    }
  }

  /** The only row with a name is all the query finds. */
  lemma {:induction false} QueryUnique(rows: Table, name: string, i: nat)
    requires UniquelyNamed(rows, name, i)
    ensures Query(rows, name) == [i]
    decreases |rows|
  {
    var n := |rows| - 1;
    var front := rows[..n];
    if i == n {
      QueryAbsent(front, name);
    } else {
      QueryUnique(front, name, i);
    }
  }

  /** After a delete of the only row with the name, the query finds none. */
  lemma DeleteUniqueLeavesNone(rows: Table, name: string, i: nat)
    requires UniquelyNamed(rows, name, i)
    ensures Query(DeleteRow(rows, i), name) == []
  {
    var after := DeleteRow(rows, i);
    forall j | 0 <= j < |after| ensures after[j].name != name {
      if j < i {
        assert after[j] == rows[j];
      } else {
        assert after[j] == rows[j + 1];
      }
    }
    QueryAbsent(after, name);
  }
}
