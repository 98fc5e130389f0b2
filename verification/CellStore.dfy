/** The version cells that the leaves of a table point to, by address. */
module CellStore {
  import opened VersionChain
  import opened VersionCell

  /** The cell is as it was. */
  twostate predicate Kept<V>(c: Cell<V>)
    requires old(c.Valid())
    reads c, c.repr
  {
    c.repr == old(c.repr) && c.Valid() && c.History() == old(c.History())
  }

  class Store<!V> {
    var cells: seq<Cell<V>>
    ghost var repr: set<object>

    ghost predicate Valid()
      reads this, repr
    {
      && this in repr
      && (forall i :: 0 <= i < |cells| ==>
            cells[i] in repr && cells[i].repr <= repr && this !in cells[i].repr && cells[i].Valid())
      && (forall i, j :: 0 <= i < j < |cells| ==> cells[i].repr !! cells[j].repr)
    }

    /** The histories of all cells. */
    ghost function Chains(): (r: seq<Chain<V>>)
      requires Valid()
      reads this, repr
      ensures |r| == |cells| && forall i :: 0 <= i < |r| ==> r[i] == cells[i].History() && r[i] != []
    {
      seq(|cells|, i requires 0 <= i < |cells| && Valid() reads this, repr => cells[i].History())
    }

    constructor ()
      ensures Valid() && fresh(repr) && Chains() == []
    {
      cells := [];
      repr := {this};
    }

    /** `new mvcc(txn_id, value)` */
    method Allocate(txn: TxnId, value: V) returns (id: nat)
      requires Valid()
      modifies this
      ensures Valid() && fresh(repr - old(repr)) && id == |old(cells)|
      ensures Chains() == old(Chains()) + [Fresh(txn, value)]
    {
      var c := new Cell(txn, value);
      id := |cells|;
      cells := cells + [c];
      repr := repr + c.repr;
    }

    /** A call on the cell at `id` that keeps the others keeps the whole store in order. */
    twostate lemma Settled(id: nat)
      requires old(Valid()) && cells == old(cells) && id < |cells|
      requires cells[id].Valid() && fresh(cells[id].repr - old(cells[id].repr))
      requires forall i :: 0 <= i < |cells| && i != id ==> Kept(cells[i])
      requires repr == old(repr) + cells[id].repr
      ensures Valid() && Chains() == old(Chains())[id := cells[id].History()]
    {
    }

    /** `overwriteMV` on the cell at `id` */
    method Overwrite(id: nat, txn: TxnId, value: V, active: Status)
      requires Valid() && id < |cells|
      modifies repr
      ensures Valid() && fresh(repr - old(repr)) && |cells| == old(|cells|)
      ensures var c := old(Chains())[id];
        Chains() == if Conflict(c, txn, active) then old(Chains())
                    else old(Chains())[id := After(c, VersionChain.Overwrite(txn, value))]
    {
      hide After, Conflict;
      var _ := cells[id].OverwriteMV(txn, value, active);
      repr := repr + cells[id].repr;
      Settled(id);
    }

    /** `update` on the cell at `id`, which waits until the guard lets it pass */
    method Update(id: nat, txn: TxnId, updater: V -> V, active: nat -> Status, ghost calm: nat)
      requires Valid() && id < |cells| && !Conflict(Chains()[id], txn, active(calm))
      modifies repr
      ensures Valid() && fresh(repr - old(repr)) && |cells| == old(|cells|)
      ensures Chains() == old(Chains())[id := After(old(Chains())[id], VersionChain.Update(txn, updater))]
    {
      var _ := cells[id].Update(txn, updater, active, calm);
      repr := repr + cells[id].repr;
      Settled(id);
    }

    /** `deleteMV` on the cell at `id` */
    method Delete(id: nat, txn: TxnId, active: nat -> Status, ghost calm: nat)
      requires Valid() && id < |cells| && !Conflict(Chains()[id], txn, active(calm))
      modifies repr
      ensures Valid() && fresh(repr - old(repr)) && |cells| == old(|cells|)
      ensures Chains() == old(Chains())[id := After(old(Chains())[id], VersionChain.Delete(txn))]
    {
      var _ := cells[id].DeleteMV(txn, active, calm);
      repr := repr + cells[id].repr;
      Settled(id);
    }

    /** `current()` of the cell at `id` */
    method Head(id: nat) returns (value: V, end: nat)
      requires Valid() && id < |cells|
      ensures value == Chains()[id][0].value && end == Chains()[id][0].end
    {
      assert Chains()[id] == cells[id].History();
      var s := cells[id].current;
      return s.value, s.end;
    }
  }
}
