/** The director service: plain operations on the directors table. Its not-found checks
    test a query that was never awaited, a pending promise that is always truthy, so they
    never fire: update and remove of an unknown id do not fail. */
module DirectorService {
  import opened Wrappers
  import opened Errors
  import opened Catalog

  /** The create body: the director's fields, taken as given. */
  datatype DirectorDto = DirectorDto(name: string, dob: string, nationality: string)

  /** The update body: any subset of the fields. */
  datatype DirectorPatch = DirectorPatch(name: Option<string>, dob: Option<string>, nationality: Option<string>)

  datatype SavedDirector = SavedDirector(id: Id, director: Director)

  /** Some movie refers to director `id`. */
  predicate Referenced(st: Store, id: Id) {
    exists m :: m in st.movies && st.movies[m].directorId == id
  }

  /** Saves the body as a new director under a fresh key; nothing else changes. */
  function Create(st: Store, dto: DirectorDto): (r: Outcome<Store, SavedDirector>)
    ensures r.result.Ok?
    ensures Valid(st) ==> r.result.value.id !in st.directors
    ensures r.result.value.director == Director(dto.name, dto.dob, dto.nationality)
    ensures r.store.directors == st.directors[r.result.value.id := r.result.value.director]
    ensures r.store.movies == st.movies && r.store.details == st.details && r.store.genres == st.genres
  {
    var id := st.nextDirectorId;
    var director := Director(dto.name, dto.dob, dto.nationality);
    Outcome(st.(directors := st.directors[id := director], nextDirectorId := id + 1), Ok(SavedDirector(id, director)))
  }

  /** Every stored director, by key. */
  function FindAll(st: Store): (r: map<Id, Director>)
    ensures forall id :: id in r <==> id in st.directors
    ensures forall id :: id in r ==> r[id] == st.directors[id]
  {
    st.directors
  }

  /** The director stored under `id`, or none. */
  function FindOne(st: Store, id: Id): (r: Option<Director>)
    ensures r.Some? <==> id in st.directors
    ensures r.Some? ==> r.value == st.directors[id]
  {
    if id in st.directors then Some(st.directors[id]) else None
  }

  /** Overwrites the supplied fields of director `id` and returns the reloaded record. An
      unknown id is not an error: nothing changes and the reload finds nothing. */
  function Update(st: Store, id: Id, patch: DirectorPatch): (r: Outcome<Store, Option<Director>>)
    ensures id !in st.directors ==> r == Outcome(st, Ok(None))
    ensures id in st.directors ==>
              var before := st.directors[id];
              && r.result.Ok? && r.result.value.Some?
              && var after := r.result.value.value;
              && after.name == (if patch.name.Some? then patch.name.value else before.name)
              && after.dob == (if patch.dob.Some? then patch.dob.value else before.dob)
              && after.nationality == (if patch.nationality.Some? then patch.nationality.value else before.nationality)
              && r.store == st.(directors := st.directors[id := after])
  {
    if id !in st.directors then Outcome(st, Ok(None))
    else
      var before := st.directors[id];
      var after := Director(
        patch.name.GetOr(before.name),
        patch.dob.GetOr(before.dob),
        patch.nationality.GetOr(before.nationality));
      var updated := st.(directors := st.directors[id := after]);
      Outcome(updated, Ok(FindOne(updated, id)))
  }

  /** Deletes director `id` and returns the id, whether or not it existed. The movie's
      director column is a non-nullable foreign key with no delete action, so the database
      rejects deleting a director some movie still refers to. */
  function Remove(st: Store, id: Id): (r: Outcome<Store, Id>)
    ensures Referenced(st, id) ==> r == Outcome(st, Err(QueryFailed(DirectorReferenced)))
    ensures !Referenced(st, id) ==> r == Outcome(st.(directors := st.directors - {id}), Ok(id))
  {
    if Referenced(st, id) then Outcome(st, Err(QueryFailed(DirectorReferenced)))
    else Outcome(st.(directors := st.directors - {id}), Ok(id))
  }

  /** A director just created is found under its key with exactly the body's fields, and
      is listed among all directors. */
  lemma CreatedDirectorIsFound(st: Store, dto: DirectorDto)
    ensures var created := Create(st, dto);
            var saved := created.result.value;
            && FindOne(created.store, saved.id) == Some(Director(dto.name, dto.dob, dto.nationality))
            && saved.id in FindAll(created.store)
  {
  }

  /** Creating, updating and removing directors keep the schema's constraints; for
      removal this rests on the foreign key check. */
  lemma DirectorWritesKeepValid(st: Store, dto: DirectorDto, id: Id, patch: DirectorPatch)
    requires Valid(st)
    ensures Valid(Create(st, dto).store)
    ensures Valid(Update(st, id, patch).store)
    ensures Valid(Remove(st, id).store)
  {
    var removed := Remove(st, id).store;
    forall m | m in removed.movies ensures References(removed, removed.movies[m]) {
      if st.movies[m].directorId == id {
        assert Referenced(st, id);
      }
    }
  }

  /** Removing a director just created succeeds and restores the directors table: no movie
      can refer to a director that did not exist. */
  lemma RemoveUndoesCreate(st: Store, dto: DirectorDto)
    requires Valid(st)
    ensures var created := Create(st, dto);
            var saved := created.result.value;
            var removed := Remove(created.store, saved.id);
            && removed.result == Ok(saved.id)
            && removed.store.directors == st.directors
  {
    var created := Create(st, dto).store;
    var saved := Create(st, dto).result.value;
    assert forall m :: m in created.movies ==> created.movies[m].directorId != saved.id;
    assert created.directors - {saved.id} == st.directors;
  }
  /** As written, an unknown director id is not reported: update answers with no director
      and remove claims success, both leaving the store as it was. */
  lemma UnknownDirectorNotReported(st: Store, id: Id, patch: DirectorPatch)
    requires Valid(st) && id !in st.directors
    ensures Update(st, id, patch) == Outcome(st, Ok(None))
    ensures Remove(st, id) == Outcome(st, Ok(id))
  {
    assert forall m :: m in st.movies ==> st.movies[m].directorId != id;
    assert st.directors - {id} == st.directors;
  }

  /** Update with the existence check awaited: an unknown id fails with NotFound and
      changes nothing; a known id is updated exactly as the code as written does. */
  function UpdateIntended(st: Store, id: Id, patch: DirectorPatch): (r: Outcome<Store, Director>)
    ensures r.result == Err(NotFound(DirectorMissing)) <==> id !in st.directors
    ensures r.result.Ok? <==> id in st.directors
    ensures r.result.Err? ==> r.store == st
    ensures r.result.Ok? ==> Outcome(r.store, Ok(Some(r.result.value))) == Update(st, id, patch)
  {
    if id !in st.directors then Outcome(st, Err(NotFound(DirectorMissing)))
    else
      var updated := Update(st, id, patch);
      Outcome(updated.store, Ok(updated.result.value.value))
  }

  /** Remove with the existence check awaited: an unknown id fails with NotFound, a
      referenced one with the foreign key error, and either failure changes nothing;
      otherwise exactly that director is removed. */
  function RemoveIntended(st: Store, id: Id): (r: Outcome<Store, Id>)
    ensures r.result == Err(NotFound(DirectorMissing)) <==> id !in st.directors
    ensures r.result.Err? ==> r.store == st
    ensures r.result.Ok? <==> id in st.directors && !Referenced(st, id)
    ensures r.result.Ok? ==> r.result.value == id && r.store.directors == st.directors - {id} && |r.store.directors| == |st.directors| - 1
    ensures r.result.Ok? ==> r.store == st.(directors := st.directors - {id})
  {
    if id !in st.directors then Outcome(st, Err(NotFound(DirectorMissing)))
    else Remove(st, id)
  }
}
