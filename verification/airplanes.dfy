/** The airplane registry: a JSON object from airplane id to airplane,
    written as a whole on every save, and the service that validates new
    airplanes. Unlike the flight and reservation documents it stays in
    map form. */
module Airplanes {
  import opened Results
  import opened Domain
  import opened Storage

  /** Reading the registry: a missing document is empty; a list or an
      unreadable document does not decode as a map. */
  function LoadMap(st: Stored<Airplane>): (r: Result<map<string, Airplane>>)
    ensures r.Ok? <==> st.Missing? || st.MapForm?
    ensures r.Err? ==> r.error == Decode
    ensures st.MapForm? ==> r.value == st.entries
    ensures st.Missing? ==> r.value == map[]
  {
    match st
    case Missing => Ok(map[])
    case MapForm(m) => Ok(m)
    case _ => Err(Decode)
  }

  /** Store an airplane under its id, replacing any airplane with that id. */
  function Save(st: Stored<Airplane>, a: Airplane): (r: Reply<Airplane, ()>)
    ensures LoadMap(st).Err? ==> r == Reply(Err(Decode), st)
    ensures LoadMap(st).Ok? ==>
      var before := LoadMap(st).value;
      && r.result.Ok? && r.store.MapForm?
      && a.id in r.store.entries && r.store.entries[a.id] == a
      && (forall k :: k != a.id ==> (k in r.store.entries <==> k in before))
      && (forall k :: k != a.id && k in before ==> r.store.entries[k] == before[k])
      && |r.store.entries| == if a.id in before then |before| else |before| + 1
  {
    match LoadMap(st)
    case Err(e) => Reply(Err(e), st)
    case Ok(m) => Reply(Ok(()), MapForm(m[a.id := a]))
  }

  /** The airplane stored under `id`. */
  function FindById(st: Stored<Airplane>, id: string): (r: Result<Airplane>)
    ensures LoadMap(st).Err? ==> r == Err(Decode)
    ensures LoadMap(st).Ok? && id in LoadMap(st).value ==> r == Ok(LoadMap(st).value[id])
    ensures LoadMap(st).Ok? && id !in LoadMap(st).value ==> r == Err(NotFound)
  {
    match LoadMap(st)
    case Err(e) => Err(e)
    case Ok(m) => if id in m then Ok(m[id]) else Err(NotFound)
  }

  /** Every stored airplane, one per id, in the map's iteration order `order`. */
  function FindAll(st: Stored<Airplane>, order: seq<string>): (r: Result<seq<Airplane>>)
    requires ValidOrder(st, order)
    ensures r.Ok? <==> LoadMap(st).Ok?
    ensures r.Err? ==> r.error == Decode
    ensures st.Missing? ==> r == Ok([])
    ensures st.MapForm? ==>
      && |r.value| == |order|
      && forall i :: 0 <= i < |order| ==> r.value[i] == st.entries[order[i]]
    ensures r.Ok? ==>
      && |r.value| == |LoadMap(st).value|
      && forall a :: a in r.value <==> a in LoadMap(st).value.Values
  {
    match st
    case Missing => Ok([])
    case MapForm(m) =>
      var items := LoadList(st, order).result.value;
      forall a ensures a in items <==> a in m.Values {
        LoadKeepsLegacyValues(m, order, a);
      }
      Ok(items)
    case _ => Err(Decode)
  }

  /** After a save the airplane is found under its id, and every other
      id finds what it found before. */
  lemma SaveThenFind(st: Stored<Airplane>, a: Airplane, id: string)
    requires LoadMap(st).Ok?
    ensures FindById(Save(st, a).store, a.id) == Ok(a)
    ensures id != a.id ==> FindById(Save(st, a).store, id) == FindById(st, id)
  {
  }

  /** A new airplane needs a model and a positive capacity; a valid one
      is saved with exactly the given id, model and capacity, and every
      other id finds what it found before. */
  function AddAirplane(st: Stored<Airplane>, id: string, model: string, capacity: int): (r: Reply<Airplane, ()>)
    ensures model == "" || capacity <= 0 ==> r == Reply(Err(InvalidAirplane), st)
    ensures model != "" && capacity > 0 ==>
      && (LoadMap(st).Err? ==> r == Reply(Err(Decode), st))
      && (LoadMap(st).Ok? ==> r.result.Ok? && FindById(r.store, id) == Ok(Airplane(id, model, capacity)))
    ensures model != "" && capacity > 0 && LoadMap(st).Ok? ==>
      && r.store.MapForm?
      && (forall k :: k != id ==> FindById(r.store, k) == FindById(st, k))
      && |r.store.entries| == if id in LoadMap(st).value then |LoadMap(st).value| else |LoadMap(st).value| + 1
  {
    if model == "" || capacity <= 0 then Reply(Err(InvalidAirplane), st)
    else Save(st, Airplane(id, model, capacity))
  }
}
