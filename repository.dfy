/**
 * The persistence side of the two services: a table of rows keyed by NIC number,
 * with the order in which findAll lists them (the order the rows were first saved).
 */
module Repository {
  import opened Wrappers

  class Table<Row> {
    var rows: map<string, Row>
    var order: seq<string>

    /** Every key is listed exactly once. */
    ghost predicate Valid()
      reads this
    {
      && (forall i, j :: 0 <= i < j < |order| ==> order[i] != order[j])
      && (forall k :: k in rows <==> k in order)
    }

    constructor ()
      ensures Valid() && rows == map[] && order == []
    {
      rows := map[];
      order := [];
    }

    /** findByNicNumber */
    function FindByNicNumber(nic: string): (r: Option<Row>)
      reads this
      ensures r.Some? <==> nic in rows
      ensures r.Some? ==> r.value == rows[nic]
    {
      if nic in rows then Some(rows[nic]) else None
    }

    /** existsByNicNumber */
    function ExistsByNicNumber(nic: string): (r: bool)
      reads this
      ensures r <==> FindByNicNumber(nic).Some?
    {
      nic in rows
    }

    /** findAll: each stored key with its row, once each, in listing order. */
    function FindAll(): (r: seq<(string, Row)>)
      reads this
      requires Valid()
      ensures |r| == |order| == |rows|
      ensures forall i :: 0 <= i < |r| ==> r[i].0 == order[i] && r[i].0 in rows && r[i].1 == rows[r[i].0]
    {
      UniqueKeysCount(order, rows);
      var keys, table := order, rows;
      seq(|keys|, i requires 0 <= i < |keys| && keys[i] in table => (keys[i], table[keys[i]]))
    }

    /**
     * save: insert a new key at the end of the listing, or replace the row of a
     * key already stored; no other key changes.
     */
    method Save(nic: string, row: Row)
      requires Valid()
      modifies this
      ensures Valid()
      ensures rows == old(rows)[nic := row]
      ensures order == if nic in old(rows) then old(order) else old(order) + [nic]
    {
      if nic !in rows {
        order := order + [nic];
      }
      rows := rows[nic := row];
    }
  }

  /** A duplicate-free listing of a map's keys has as many entries as the map. */
  lemma {:induction false} UniqueKeysCount<Row>(order: seq<string>, rows: map<string, Row>)
    requires forall i, j :: 0 <= i < j < |order| ==> order[i] != order[j]
    requires forall k :: k in rows <==> k in order
    ensures |order| == |rows|
  {
    if order != [] {
      var last := order[|order| - 1];
      var rest := rows - {last};
      assert forall k :: k in rest <==> k in order[..|order| - 1] by {
        forall k ensures k in rest <==> k in order[..|order| - 1] {
          if k in order[..|order| - 1] {
            var i :| 0 <= i < |order| - 1 && order[i] == k;
            assert order[i] != order[|order| - 1];
          }
        }
      }
      UniqueKeysCount(order[..|order| - 1], rest);
    }
  }
}
