/** Reads through a pending write batch, and what committing or dropping the batch does. */
module LevelDb {
  import opened Collections

  type Store = map<string, string>

  datatype BatchOp = Put(key: string, value: string) | Delete(key: string)

  /** What a store becomes when the operations of a batch are carried out in order. */
  function Apply(db: Store, batch: seq<BatchOp>): Store {
    if batch == [] then db
    else
      var before := Apply(db, batch[..|batch| - 1]);
      match batch[|batch| - 1]
      case Put(k, v) => before[k := v]
      case Delete(k) => before - {k}
  }

  function Lookup(db: Store, key: string): Option<string> { if key in db then Some(db[key]) else None }

  /** The last operation of a batch on a key. */
  function Last(batch: seq<BatchOp>, key: string): Option<BatchOp> {
    if batch == [] then None
    else if batch[|batch| - 1].key == key then Some(batch[|batch| - 1])
    else Last(batch[..|batch| - 1], key)
  }

  /** The last operation on a key alone decides what it reads as. */
  lemma {:induction false} LastDecides(db: Store, batch: seq<BatchOp>, key: string)
    ensures Lookup(Apply(db, batch), key) ==
      match Last(batch, key)
      case None => Lookup(db, key)
      case Some(Put(_, v)) => Some(v)
      case Some(Delete(_)) => None
  {
    if batch != [] && batch[|batch| - 1].key != key { LastDecides(db, batch[..|batch| - 1], key); }
  }

  class LevelDb {
    var pdb: Store
    var activeBatch: Option<seq<BatchOp>>

    constructor (db: Store)
      ensures pdb == db && activeBatch.None?
    {
      pdb, activeBatch := db, None;
    }

    /** The store as it will be if the pending batch is committed. */
    function View(): Store
      reads this
    {
      if activeBatch.Some? then Apply(pdb, activeBatch.value) else pdb
    }

    /** Goes through the whole batch; a later operation on the key overrides an earlier one. */
    method ScanBatch(needle: string) returns (foundEntry: bool, value: string, deleted: bool)
      requires activeBatch.Some?
      ensures match Last(activeBatch.value, needle)
              case None => !foundEntry && !deleted
              case Some(Put(_, v)) => foundEntry && !deleted && value == v
              case Some(Delete(_)) => foundEntry && deleted
    {
      foundEntry, value, deleted := false, "", false;
      var batch := activeBatch.value;
      for i := 0 to |batch|
        invariant match Last(batch[..i], needle)
                  case None => !foundEntry && !deleted
                  case Some(Put(_, v)) => foundEntry && !deleted && value == v
                  case Some(Delete(_)) => foundEntry && deleted
      {
        assert batch[..i + 1][..i] == batch[..i];
        match batch[i]
        case Put(k, v) =>
          if k == needle { foundEntry, deleted, value := true, false, v; }
        case Delete(k) =>
          if k == needle { foundEntry, deleted := true, true; }
      }
      assert batch[..|batch|] == batch;
    }

    /** Inside a batch or not, a read sees what the store will hold after the commit. */
    method ReadNormal(key: string) returns (r: Option<string>)
      ensures r == Lookup(View(), key)
    {
      var readFromDb := true;
      r := None;
      if activeBatch.Some? {
        var found, value, deleted := ScanBatch(key);
        LastDecides(pdb, activeBatch.value, key);
        readFromDb := !found;
        if deleted { return None; }
        r := Some(value);
      }
      if readFromDb { r := if key in pdb then Some(pdb[key]) else None; }
    }

    /** A key erased in the batch while still on disk is taken to exist. */
    method ExistsNormal(key: string) returns (r: bool)
      ensures r <==> key in View() || Stale(key)
    {
      if activeBatch.Some? {
        var found, value, deleted := ScanBatch(key);
        LastDecides(pdb, activeBatch.value, key);
        if found && !deleted { return true; }
      }
      r := key in pdb;
    }

    /** The pending batch erases the key last, and the store on disk still has it. */
    predicate Stale(key: string)
      reads this
    {
      activeBatch.Some? && key in pdb && Last(activeBatch.value, key).Some?
        && Last(activeBatch.value, key).value.Delete?
    }

    method WriteNormal(key: string, value: string, fOverwrite: bool) returns (ok: bool)
      modifies this
      ensures ok <==> fOverwrite || !(key in old(View()) || old(Stale(key)))
      ensures View() == if ok then old(View())[key := value] else old(View())
      ensures activeBatch.Some? == old(activeBatch).Some? && (activeBatch.Some? ==> pdb == old(pdb))
    {
      if !fOverwrite {
        var present := ExistsNormal(key);
        if present { return false; }
      }
      if activeBatch.Some? {
        ghost var before := activeBatch.value;
        activeBatch := Some(activeBatch.value + [Put(key, value)]);
        assert activeBatch.value[..|before|] == before;
        return true;
      }
      pdb := pdb[key := value];
      ok := true;
    }

    method EraseNormal(key: string)
      modifies this
      ensures View() == old(View()) - {key}
      ensures activeBatch.Some? ==>
        old(activeBatch).Some? && activeBatch.value == old(activeBatch).value + [Delete(key)]
      ensures activeBatch.Some? == old(activeBatch).Some? && (activeBatch.Some? ==> pdb == old(pdb))
    {
      if activeBatch.Some? {
        ghost var before := activeBatch.value;
        activeBatch := Some(activeBatch.value + [Delete(key)]);
        assert activeBatch.value[..|before|] == before;
        return;
      }
      pdb := pdb - {key};
    }

    method TxnBegin()
      requires activeBatch.None?
      modifies this
      ensures activeBatch == Some([]) && pdb == old(pdb) && View() == old(View())
    {
      activeBatch := Some([]);
    }

    method TxnCommit()
      requires activeBatch.Some?
      modifies this
      ensures activeBatch.None? && pdb == old(View()) && View() == old(View())
    {
      pdb := Apply(pdb, activeBatch.value);
      activeBatch := None;
    }

    method TxnAbort()
      modifies this
      ensures activeBatch.None? && pdb == old(pdb) && View() == old(pdb)
    {
      activeBatch := None;
    }

    /** A transaction of any writes and erases: while it is open every read agrees with the store it
        would commit, the disk is untouched, and an abort brings back what was there before it. */
    method Transaction(ops: seq<Op>, keys: seq<string>, commit: bool) returns (pending: seq<Option<string>>,
                       after: seq<Option<string>>)
      requires activeBatch.None?
      modifies this
      ensures activeBatch.None? && |pending| == |after| == |keys|
      ensures commit ==> pending == after
      ensures commit && (forall i :: 0 <= i < |ops| ==> !ops[i].Write? || ops[i].fOverwrite) ==>
        pdb == Outcome(old(pdb), ops)
      ensures !commit ==> pdb == old(pdb)
      ensures forall k :: 0 <= k < |keys| ==> after[k] == Lookup(pdb, keys[k])
    {
      TxnBegin();
      for i := 0 to |ops|
        invariant activeBatch.Some? && pdb == old(pdb)
        invariant (forall j :: 0 <= j < |ops| ==> !ops[j].Write? || ops[j].fOverwrite) ==>
          View() == Outcome(old(pdb), ops[..i])
      {
        assert ops[..i + 1][..i] == ops[..i];
        match ops[i]
        case Write(k, v, fOverwrite) => var _ := WriteNormal(k, v, fOverwrite);
        case Erase(k) => EraseNormal(k);
      }
      assert ops[..|ops|] == ops;
      pending := ReadAll(keys);
      if commit { TxnCommit(); } else { TxnAbort(); }
      after := ReadAll(keys);
    }

    method ReadAll(keys: seq<string>) returns (r: seq<Option<string>>)
      ensures |r| == |keys| && forall k :: 0 <= k < |keys| ==> r[k] == Lookup(View(), keys[k])
    {
      r := [];
      for i := 0 to |keys|
        invariant |r| == i && forall k :: 0 <= k < i ==> r[k] == Lookup(View(), keys[k])
      {
        var v := ReadNormal(keys[i]);
        r := r + [v];
      }
    }
  }

  datatype Op = Write(key: string, value: string, fOverwrite: bool) | Erase(key: string)

  /** The same operations without a batch. */
  function Outcome(db: Store, ops: seq<Op>): Store {
    if ops == [] then db
    else
      var before := Outcome(db, ops[..|ops| - 1]);
      match ops[|ops| - 1]
      case Write(k, v, _) => before[k := v]
      case Erase(k) => before - {k}
  }

  /** What the existence check finds is right exactly when the key is not one erased in the batch and
      still on disk. */
  lemma ExistsRight(db: Store, batch: seq<BatchOp>, key: string)
    ensures var found := Last(batch, key).Some? && Last(batch, key).value.Put?;
      ((found || key in db) == (key in Apply(db, batch)))
      <==> !(key in db && Last(batch, key).Some? && Last(batch, key).value.Delete?)
  {
    LastDecides(db, batch, key);
  }

  /** So a write that must not overwrite is refused after the key was erased in the same batch. */
  method RefusedRewrite() returns (ok: bool)
    ensures !ok
  {
    var db := new LevelDb(map["k" := "v"]);
    db.TxnBegin();
    db.EraseNormal("k");
    assert db.activeBatch.value == [Delete("k")];
    ok := db.WriteNormal("k", "w", false);
  }
}
