/** The operations both JSON repositories share, over any record type
    addressed by a string key (a flight's number, a reservation's id).
    Every operation starts by reading the whole document as `LoadList`
    does, so a legacy document is normalised as a side effect. */
module Repository {
  import opened Results
  import opened Storage
  import opened KeyedList

  /** Look up the first record with key `id`. */
  function FindById<T>(st: Stored<T>, order: seq<string>, key: T -> string, id: string): (r: Reply<T, T>)
    requires ValidOrder(st, order)
    ensures r.store == LoadList(st, order).store
    ensures st.Corrupt? ==> r.result == Err(Decode)
    ensures !st.Corrupt? ==>
      var all := LoadList(st, order).result.value;
      && (NoMatch(all, key, id) ==> r.result == Err(NotFound))
      && (forall i :: IsFirstMatch(all, key, id, i) ==> r.result == Ok(all[i]))
  {
    var loaded := LoadList(st, order);
    match loaded.result
    case Err(e) => Reply(Err(e), loaded.store)
    case Ok(all) =>
      match FindFirst(all, key, id)
      case None => Reply(Err(NotFound), loaded.store)
      case Some(i) =>
        assert forall i' :: IsFirstMatch(all, key, id, i') ==> i' == i by {
          forall i' | IsFirstMatch(all, key, id, i') {
            FirstMatchUnique(all, key, id, i, i');
          }
        }
        Reply(Ok(all[i]), loaded.store)
  }

  /** Store a record: replace the first one with the same key in place,
      or append it. */
  function Save<T>(st: Stored<T>, order: seq<string>, key: T -> string, x: T): (r: Reply<T, ()>)
    requires ValidOrder(st, order)
    ensures st.Corrupt? ==> r == Reply(Err(Decode), st)
    ensures !st.Corrupt? ==>
      && r.result.Ok?
      && r.store.ListForm?
      && IsUpsert(LoadList(st, order).result.value, r.store.items, key, x)
  {
    var loaded := LoadList(st, order);
    match loaded.result
    case Err(e) => Reply(Err(e), loaded.store)
    case Ok(all) => Reply(Ok(()), ListForm(Upsert(all, key, x)))
  }

  /** Replace the first record with the same key; fail when there is none. */
  function Update<T>(st: Stored<T>, order: seq<string>, key: T -> string, x: T): (r: Reply<T, ()>)
    requires ValidOrder(st, order)
    ensures st.Corrupt? ==> r == Reply(Err(Decode), st)
    ensures !st.Corrupt? ==>
      var all := LoadList(st, order).result.value;
      && (r.result.Ok? <==> !NoMatch(all, key, key(x)))
      && (r.result.Err? ==> r == Reply(Err(NotFound), LoadList(st, order).store))
      && (forall i :: IsFirstMatch(all, key, key(x), i) ==>
            r.store.ListForm? && ReplacedAt(all, r.store.items, i, x))
  {
    var loaded := LoadList(st, order);
    match loaded.result
    case Err(e) => Reply(Err(e), loaded.store)
    case Ok(all) =>
      match Replace(all, key, x)
      case None => Reply(Err(NotFound), loaded.store)
      case Some(items) => Reply(Ok(()), ListForm(items))
  }

  /** After a save, looking the record's key up returns the record. */
  lemma SaveThenFind<T>(st: Stored<T>, order: seq<string>, order': seq<string>, key: T -> string, x: T)
    requires ValidOrder(st, order)
    requires !st.Corrupt?
    ensures FindById(Save(st, order, key, x).store, order', key, key(x)).result == Ok(x)
  {
    var all := LoadList(st, order).result.value;
    FindAfterUpsert(all, key, x);
  }

  /** A save leaves the lookup of every other key as it was. */
  lemma SaveKeepsOthers<T>(st: Stored<T>, order: seq<string>, order': seq<string>, key: T -> string, x: T, id: string)
    requires ValidOrder(st, order)
    requires id != key(x)
    ensures FindById(Save(st, order, key, x).store, order', key, id).result
         == FindById(st, order, key, id).result
  {
    if !st.Corrupt? {
      var all := LoadList(st, order).result.value;
      WriteKeepsOtherLookups(all, Upsert(all, key, x), key, x, id);
    }
  }

  /** A successful update is a save of a record whose key was present;
      an update of an absent key fails where a save would append. */
  lemma UpdateIsSaveOfPresentKey<T>(st: Stored<T>, order: seq<string>, key: T -> string, x: T)
    requires ValidOrder(st, order)
    requires !st.Corrupt?
    ensures Update(st, order, key, x).result.Ok? ==>
      Update(st, order, key, x) == Save(st, order, key, x)
    ensures Update(st, order, key, x).result.Err? ==>
      Save(st, order, key, x).store.items == LoadList(st, order).result.value + [x]
  {
    var all := LoadList(st, order).result.value;
    match FindFirst(all, key, key(x))
    case Some(i) =>
      assert ReplacedAt(all, Update(st, order, key, x).store.items, i, x);
      assert ReplacedAt(all, Save(st, order, key, x).store.items, i, x);
    case None =>
  }

  /** After an update that succeeds, looking the key up returns the new
      record, and every other key's lookup is unchanged. */
  lemma UpdateThenFind<T>(st: Stored<T>, order: seq<string>, order': seq<string>, key: T -> string, x: T, id: string)
    requires ValidOrder(st, order)
    requires Update(st, order, key, x).result.Ok?
    ensures FindById(Update(st, order, key, x).store, order', key, key(x)).result == Ok(x)
    ensures id != key(x) ==>
      FindById(Update(st, order, key, x).store, order', key, id).result == FindById(st, order, key, id).result
  {
    UpdateIsSaveOfPresentKey(st, order, key, x);
    SaveThenFind(st, order, order', key, x);
    if id != key(x) {
      SaveKeepsOthers(st, order, order', key, x, id);
    }
  }
}
