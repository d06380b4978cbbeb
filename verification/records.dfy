/** Stocks and masters as records with `active` and `deleted` flags: the
    active/retired listing, the retire/activate/delete endpoints, and the
    field merge of `/stock/:id/save`. */
module Records {
  import opened Wrappers
  import opened Seqs

  /** A stock or a master; only the fields these endpoints read or write. */
  datatype Record = Record(id: nat, active: bool, deleted: bool)

  /** `filter(s => !s.deleted)`, in collection order. */
  function Live(rs: seq<Record>): (r: seq<Record>)
    ensures forall x :: x in r <==> x in rs && !x.deleted
  {
    if rs == [] then []
    else
      var x := rs[|rs| - 1];
      Live(rs[..|rs| - 1]) + (if x.deleted then [] else [x])
  }

  datatype Listing = Listing(active: seq<Record>, retired: seq<Record>)

  /** The `reduce` that pushes each record onto the active or the retired
      list. */
  function Partition(rs: seq<Record>): (p: Listing)
    ensures |p.active| + |p.retired| == |rs|
    ensures forall i :: 0 <= i < |p.active| ==> p.active[i].active && p.active[i] in rs
    ensures forall i :: 0 <= i < |p.retired| ==> !p.retired[i].active && p.retired[i] in rs
  {
    if rs == [] then Listing([], [])
    else
      var p := Partition(rs[..|rs| - 1]);
      var x := rs[|rs| - 1];
      if x.active then p.(active := p.active + [x]) else p.(retired := p.retired + [x])
  }

  /** `GET /stock` and `GET /master`: the query for non-deleted records,
      filtered once more, then partitioned. */
  function ListRecords(db: seq<Record>): (l: Listing)
    ensures forall i :: 0 <= i < |l.active| ==> l.active[i] in db && !l.active[i].deleted && l.active[i].active
    ensures forall i :: 0 <= i < |l.retired| ==> l.retired[i] in db && !l.retired[i].deleted && !l.retired[i].active
  {
    Partition(Live(Live(db)))
  }

  /** The partition loses nothing and invents nothing: every record lands in
      exactly one list, according to its `active` flag. */
  lemma {:induction false} PartitionSplits(rs: seq<Record>)
    ensures multiset(Partition(rs).active) + multiset(Partition(rs).retired) == multiset(rs)
    ensures forall x :: x in Partition(rs).active <==> x in rs && x.active
    ensures forall x :: x in Partition(rs).retired <==> x in rs && !x.active
  {
    if rs != [] {
      var front := rs[..|rs| - 1];
      assert rs == front + [rs[|rs| - 1]];
      PartitionSplits(front);
    }
  }

  /** The second filter is redundant. */
  lemma {:induction false} LiveIdempotent(rs: seq<Record>)
    ensures Live(Live(rs)) == Live(rs)
  {
    if rs != [] {
      var front := rs[..|rs| - 1];
      var x := rs[|rs| - 1];
      LiveIdempotent(front);
      LiveAppend(Live(front), if x.deleted then [] else [x]);
    }
  }

  lemma {:induction false} LiveAppend(a: seq<Record>, b: seq<Record>)
    ensures Live(a + b) == Live(a) + Live(b)
    decreases |b|
  {
    if b == [] {
      assert a + b == a;
    } else {
      var front := b[..|b| - 1];
      assert (a + b)[..|a + b| - 1] == a + front;
      LiveAppend(a, front);
    }
  }

  /** The listing shows exactly the non-deleted records, split by flag. */
  lemma ListRecordsMembers(db: seq<Record>)
    ensures forall x :: x in ListRecords(db).active <==> x in db && !x.deleted && x.active
    ensures forall x :: x in ListRecords(db).retired <==> x in db && !x.deleted && !x.active
    ensures ListRecords(db) == Partition(Live(db))
  {
    LiveIdempotent(db);
    PartitionSplits(Live(db));
  }

  datatype Flag = Retire | Activate | Delete

  datatype FlagError = NotFound

  /** `findById`: the first record with the id. */
  function Find(db: seq<Record>, id: nat): (r: Option<nat>)
    ensures r.Some? ==> r.value < |db| && db[r.value].id == id
    ensures r.Some? ==> forall j :: 0 <= j < r.value ==> db[j].id != id
    ensures r.None? <==> forall j :: 0 <= j < |db| ==> db[j].id != id
  {
    if db == [] then None
    else if db[0].id == id then Some(0)
    else
      match Find(db[1..], id)
      case None => None
      case Some(k) => Some(k + 1)
  }

  function SetFlag(x: Record, f: Flag): Record {
    match f
    case Retire => x.(active := false)
    case Activate => x.(active := true)
    case Delete => x.(deleted := true)
  }

  /** `POST /stock/:id/<flag>` and `POST /master/:id/<flag>`: set the flag,
      save, and answer with the record's `active`. A missing record makes
      the handler fail. */
  function ApplyFlag(db: seq<Record>, id: nat, f: Flag): (r: Result<(seq<Record>, bool), FlagError>)
    ensures r.Failure? <==> forall j :: 0 <= j < |db| ==> db[j].id != id
    ensures r.Success? ==> |r.value.0| == |db|
    ensures r.Success? ==> (exists j :: 0 <= j < |db| && db[j].id == id && r.value.0[j] == SetFlag(db[j], f) && r.value.1 == r.value.0[j].active)
  {
    match Find(db, id)
    case None => Failure(NotFound)
    case Some(i) =>
      var x := SetFlag(db[i], f);
      Success((db[i := x], x.active))
  }

  /** What a flag request does: the error exactly when the id is unknown;
      otherwise one record changes, in one field, and the answer is its
      `active`. */
  lemma ApplyFlagEffect(db: seq<Record>, id: nat, f: Flag)
    ensures ApplyFlag(db, id, f).Failure? <==> forall j :: 0 <= j < |db| ==> db[j].id != id
    ensures ApplyFlag(db, id, f).Success? ==>
      var (db', active) := ApplyFlag(db, id, f).value;
      var i := Find(db, id).value;
      |db'| == |db| && db'[i].id == id &&
      (forall j :: 0 <= j < |db| && j != i ==> db'[j] == db[j]) &&
      active == db'[i].active &&
      (f == Retire ==> !db'[i].active && db'[i].deleted == db[i].deleted) &&
      (f == Activate ==> db'[i].active && db'[i].deleted == db[i].deleted) &&
      (f == Delete ==> db'[i].deleted && active == db[i].active)
  {
  }

  /** Setting a flag twice is setting it once. */
  lemma ApplyFlagIdempotent(db: seq<Record>, id: nat, f: Flag)
    requires ApplyFlag(db, id, f).Success?
    ensures ApplyFlag(ApplyFlag(db, id, f).value.0, id, f) == ApplyFlag(db, id, f)
  {
    var i := Find(db, id).value;
    var x := SetFlag(db[i], f);
    FindAfterUpdate(db, id, i, x);
    assert SetFlag(x, f) == x;
    assert db[i := x][i := x] == db[i := x];
  }

  /** Retiring and then re-activating an active record restores the
      collection. */
  lemma RetireThenActivate(db: seq<Record>, id: nat)
    requires ApplyFlag(db, id, Retire).Success?
    requires db[Find(db, id).value].active
    ensures ApplyFlag(ApplyFlag(db, id, Retire).value.0, id, Activate) == Success((db, true))
  {
    var i := Find(db, id).value;
    FindAfterUpdate(db, id, i, SetFlag(db[i], Retire));
    assert db[i := SetFlag(db[i], Retire)][i := SetFlag(SetFlag(db[i], Retire), Activate)] == db;
  }

  lemma FindAfterUpdate(db: seq<Record>, id: nat, i: nat, x: Record)
    requires Find(db, id) == Some(i) && x.id == id
    ensures Find(db[i := x], id) == Some(i)
  {
    var db' := db[i := x];
    assert db'[i].id == id;
    assert forall j :: 0 <= j < i ==> db'[j] == db[j];
  }

  /** Ids are unique in a collection. */
  predicate UniqueIds(db: seq<Record>) {
    forall j, k :: 0 <= j < k < |db| ==> db[j].id != db[k].id
  }

  /** A deleted record disappears from the listing, and nothing else does. */
  lemma DeleteHides(db: seq<Record>, id: nat)
    requires UniqueIds(db)
    requires ApplyFlag(db, id, Delete).Success?
    ensures var l := ListRecords(ApplyFlag(db, id, Delete).value.0);
      (forall x :: x in l.active + l.retired ==> x.id != id) &&
      (forall x :: x in ListRecords(db).active + ListRecords(db).retired && x.id != id ==>
         x in l.active + l.retired)
  {
    var db' := ApplyFlag(db, id, Delete).value.0;
    ListRecordsMembers(db);
    ListRecordsMembers(db');
    DeleteKeepsOthers(db, id);
  }

  /** After a delete, the only record with the id is deleted, and every
      other record is still there. */
  lemma DeleteKeepsOthers(db: seq<Record>, id: nat)
    requires UniqueIds(db)
    requires ApplyFlag(db, id, Delete).Success?
    ensures forall x :: x in ApplyFlag(db, id, Delete).value.0 && !x.deleted ==> x.id != id
    ensures forall x :: x in db && x.id != id ==> x in ApplyFlag(db, id, Delete).value.0
  {
    var db' := ApplyFlag(db, id, Delete).value.0;
    var i := Find(db, id).value;
    forall x | x in db' && !x.deleted
      ensures x.id != id
    {
      var j :| 0 <= j < |db'| && db'[j] == x;
      if j != i {
        assert db[j] == x;
      }
    }
    forall x | x in db && x.id != id
      ensures x in db'
    {
      var j :| 0 <= j < |db| && db[j] == x;
      assert db'[j] == x;
    }
  }

  /** A field value of a plate document, as far as JavaScript truthiness
      goes. */
  datatype Value = Str(s: string) | Num(n: int) | Bool(b: bool) | Null | Ref(target: nat)

  predicate Truthy(v: Value) {
    match v
    case Str(s) => s != ""
    case Num(n) => n != 0
    case Bool(b) => b
    case Null => false
    case Ref(_) => true
  }

  /** A plate document: field name to value; an absent field is undefined. */
  type Doc = map<string, Value>

  predicate Private(key: string) {
    |key| > 0 && key[0] == '_'
  }

  /** A field is copied when its name is non-empty and does not start with
      `_`, and both the stored and the edited value are truthy. */
  predicate Copied(key: string, db: Doc, edited: Doc) {
    key != "" && key in db && key in edited && Truthy(db[key]) && Truthy(edited[key]) && !Private(key)
  }

  /** The merge of the edited plate into the stored one: it has the stored
      fields, and a field with a non-empty name not starting with `_` takes
      the edited value when both values are truthy. */
  function Merge(db: Doc, edited: Doc): (r: Doc)
    ensures r.Keys == db.Keys
    ensures forall key ::
      (key in db && key in edited && key != "" && !Private(key) && Truthy(db[key]) && Truthy(edited[key]))
      ==> r[key] == edited[key]
  {
    map key | key in db :: if Copied(key, db, edited) then edited[key] else db[key]
  }

  /** The `Object.keys(editedStock.plate).forEach` loop. */
  method MergeLoop(db: Doc, edited: Doc, keys: seq<string>) returns (r: Doc)
    requires Distinct(keys)
    requires forall key :: key in keys <==> key in edited
    ensures r == Merge(db, edited)
  {
    r := db;
    var k := 0;
    assert r == MergeOver(db, edited, keys[..0]);
    while k < |keys|
      invariant 0 <= k <= |keys|
      invariant r == MergeOver(db, edited, keys[..k])
    {
      var key := keys[k];
      MergeOverStep(db, edited, keys, k);
      if key != "" {
        if key in r && Truthy(r[key]) && Truthy(edited[key]) {
          if !Private(key) {
            r := r[key := edited[key]];
          }
        }
      }
      k := k + 1;
    }
    assert keys[..|keys|] == keys;
  }

  /** The merge restricted to the fields named in `ks`. */
  function MergeOver(db: Doc, edited: Doc, ks: seq<string>): Doc {
    map key | key in db :: if key in ks && Copied(key, db, edited) then edited[key] else db[key]
  }

  /** Visiting one more field of the edit copies that field alone, judged
      on its stored value, which earlier fields have not changed. */
  lemma MergeOverStep(db: Doc, edited: Doc, keys: seq<string>, k: nat)
    requires Distinct(keys) && k < |keys| && keys[k] in edited
    ensures var key := keys[k];
      var before := MergeOver(db, edited, keys[..k]);
      (key in db ==> key in before && before[key] == db[key]) &&
      MergeOver(db, edited, keys[..k + 1]) ==
        if Copied(key, db, edited) then before[key := edited[key]] else before
  {
    var key := keys[k];
    assert keys[..k + 1] == keys[..k] + [key];
    assert key !in keys[..k] by {
      assert forall j :: 0 <= j < k ==> keys[j] != keys[k];
    }
  }

  /** Underscore fields (`_id`, `__v`) never change, no field is added or
      removed, a field the edit does not send (or sends falsy) is kept, the
      empty field name is skipped, and a falsy field is never filled in. */
  lemma MergeKeeps(db: Doc, edited: Doc, key: string)
    requires key in db
    ensures key in Merge(db, edited)
    ensures Private(key) ==> Merge(db, edited)[key] == db[key]
    ensures key !in edited ==> Merge(db, edited)[key] == db[key]
    ensures key == "" ==> Merge(db, edited)[key] == db[key]
    ensures key in edited && !Truthy(edited[key]) ==> Merge(db, edited)[key] == db[key]
    ensures !Truthy(db[key]) ==> Merge(db, edited)[key] == db[key]
    ensures Truthy(Merge(db, edited)[key]) == Truthy(db[key])
  {
  }

  /** Saving the same edit twice is saving it once; saving the stored
      document onto itself changes nothing. */
  lemma MergeIdempotent(db: Doc, edited: Doc)
    ensures Merge(Merge(db, edited), edited) == Merge(db, edited)
    ensures Merge(db, db) == db
  {
  }

  datatype SaveError = StockNotSent | StockNotFound

  /** The body's `stock`: its id and its plate document. */
  datatype EditedStock = EditedStock(id: nat, plate: Doc)

  /** `POST /stock/:id/save` on a store of plate documents indexed by stock
      id. */
  function SaveStock(stocks: map<nat, Doc>, edited: Option<EditedStock>): (r: Result<map<nat, Doc>, SaveError>)
    ensures r.Failure? <==> edited.None? || edited.value.id !in stocks
    ensures r.Success? ==> r.value.Keys == stocks.Keys
  {
    match edited
    case None => Failure(StockNotSent)
    case Some(e) =>
      if e.id !in stocks then Failure(StockNotFound)
      else Success(stocks[e.id := Merge(stocks[e.id], e.plate)])
  }

  /** The save fails exactly when no stock is sent or it is unknown;
      otherwise the sent stock's plate becomes the merge and no other stock
      changes. */
  lemma SaveStockEffect(stocks: map<nat, Doc>, edited: Option<EditedStock>)
    ensures SaveStock(stocks, edited).Failure? <==> edited.None? || edited.value.id !in stocks
    ensures SaveStock(stocks, edited).Success? ==>
      var s := SaveStock(stocks, edited).value;
      s.Keys == stocks.Keys &&
      (forall id :: id in stocks && id != edited.value.id ==> s[id] == stocks[id]) &&
      s[edited.value.id] == Merge(stocks[edited.value.id], edited.value.plate) &&
      s[edited.value.id].Keys == stocks[edited.value.id].Keys
  {
  }
}
