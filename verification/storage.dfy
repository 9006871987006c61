/** A persisted JSON document seen abstractly: absent, the current list
    encoding, the legacy object encoding keyed by identifier, or
    unreadable. Reading normalises the legacy encoding to list form. */
module Storage {
  import opened Results

  datatype Stored<T> =
    | Missing                               // no file: reads as empty
    | ListForm(items: seq<T>)               // a JSON array
    | MapForm(entries: map<string, T>)      // legacy JSON object keyed by id
    | Corrupt                               // decodes in neither encoding

  /** What a repository call returns, and the document afterwards. */
  datatype Reply<T, X> = Reply(result: Result<X>, store: Stored<T>)

  /** `order` lists every key once: one iteration order Go may choose
      for a map. */
  ghost predicate Enumerates(order: seq<string>, keys: set<string>) {
    && (forall i, j :: 0 <= i < j < |order| ==> order[i] != order[j])
    && (forall k :: k in order <==> k in keys)
  }

  /** The iteration order supplied for a legacy document covers its keys. */
  ghost predicate ValidOrder<T>(st: Stored<T>, order: seq<string>) {
    st.MapForm? ==> Enumerates(order, st.entries.Keys)
  }

  /** The map's values, taken in the order of `order`. */
  function ValuesInOrder<T>(m: map<string, T>, order: seq<string>): seq<T>
    requires forall i :: 0 <= i < |order| ==> order[i] in m
  {
    seq(|order|, i requires 0 <= i < |order| => m[order[i]])
  }

  lemma {:induction false} DistinctCard(order: seq<string>)
    requires forall i, j :: 0 <= i < j < |order| ==> order[i] != order[j]
    ensures |set k | k in order| == |order|
    decreases |order|
  {
    if |order| > 0 {
      var rest := order[1..];
      DistinctCard(rest);
      assert (set k | k in order) == (set k | k in rest) + {order[0]};
    }
  }

  /** Reading a document as a list, as `FindAll` does: first as a list,
      then as a legacy map whose values are rewritten in list form. */
  function LoadList<T>(st: Stored<T>, order: seq<string>): (r: Reply<T, seq<T>>)
    requires ValidOrder(st, order)
    ensures st.Missing? ==> r == Reply(Ok([]), st)
    ensures st.ListForm? ==> r == Reply(Ok(st.items), st)
    ensures st.MapForm? ==>
      && r.result.Ok?
      && r.store == ListForm(r.result.value)
      && |r.result.value| == |order| == |st.entries|
      && (forall i :: 0 <= i < |order| ==> r.result.value[i] == st.entries[order[i]])
    ensures st.Corrupt? ==> r == Reply(Err(Decode), st)
  {
    match st
    case Missing => Reply(Ok([]), st)
    case ListForm(items) => Reply(Ok(items), st)
    case MapForm(m) =>
      DistinctCard(order);
      assert (set k | k in order) == m.Keys;
      var items := ValuesInOrder(m, order);
      Reply(Ok(items), ListForm(items))
    case Corrupt => Reply(Err(Decode), st)
  }

  /** A legacy document's values all survive the conversion to a list,
      and nothing else appears. */
  lemma LoadKeepsLegacyValues<T>(m: map<string, T>, order: seq<string>, v: T)
    requires Enumerates(order, m.Keys)
    ensures v in LoadList(MapForm(m), order).result.value <==> v in m.Values
  {
    var items := LoadList(MapForm(m), order).result.value;
    if v in m.Values {
      var k :| k in m && m[k] == v;
      var i :| 0 <= i < |order| && order[i] == k;
      assert items[i] == v;
    }
  }

  /** The startup migration: a legacy document is rewritten in list
      form; a missing or list document is left alone; an unreadable one
      is reported and left alone. */
  function Migrate<T>(st: Stored<T>, order: seq<string>): (r: Reply<T, ()>)
    requires ValidOrder(st, order)
    ensures r.result.Err? <==> st.Corrupt?
    ensures !st.MapForm? ==> r.store == st
    ensures st.MapForm? ==> r.store == LoadList(st, order).store
  {
    match st
    case Missing => Reply(Ok(()), st)
    case ListForm(_) => Reply(Ok(()), st)
    case MapForm(m) => Reply(Ok(()), ListForm(ValuesInOrder(m, order)))
    case Corrupt => Reply(Err(Decode), st)
  }

  /** Migrating twice is migrating once, whatever order the second run
      would have used. */
  lemma MigrateIdempotent<T>(st: Stored<T>, order: seq<string>, order': seq<string>)
    requires ValidOrder(st, order)
    ensures !Migrate(st, order).store.MapForm?
    ensures Migrate(Migrate(st, order).store, order') == Migrate(st, order)
  {
  }

  /** Migration does not change what a later read returns. */
  lemma MigrateKeepsContents<T>(st: Stored<T>, order: seq<string>, order': seq<string>)
    requires ValidOrder(st, order)
    ensures LoadList(Migrate(st, order).store, order').result == LoadList(st, order).result
  {
  }
}
