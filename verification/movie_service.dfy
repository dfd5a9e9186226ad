/** The movie service: listing, lookup, and the create, update and delete writes. Create
    and update run inside a transaction, so a failure leaves the store as it was. */
module MovieService {
  import opened Wrappers
  import opened Errors
  import opened Seqs
  import opened Strings
  import opened Catalog
  import opened MovieDto

  /** What `getManyAndCount` answers: the matching movies and how many there are. */
  datatype Listing = Listing(movies: map<Id, Movie>, count: nat)

  /** A movie joined with its detail, director and genres. */
  datatype MovieView = MovieView(id: Id, title: string, detail: MovieDetail, director: Director, genres: map<Id, Genre>)

  /** A newly saved movie and the key it received. */
  datatype Saved = Saved(id: Id, movie: Movie)

  /** The title filter only applies when it is truthy, that is present and non-empty. */
  predicate Matches(filter: Option<string>, title: string) {
    filter.None? || filter.value == "" || Contains(title, filter.value)
  }

  /** Lists every movie whose title contains the filter, or every movie when the filter is
      absent or empty; no pagination is applied and the count is the number listed. */
  function GetManyMovies(st: Store, title: Option<string>): (r: Listing)
    ensures forall id :: id in r.movies <==>
              id in st.movies && (title.None? || title.value == "" || OccursIn(title.value, st.movies[id].title))
    ensures forall id :: id in r.movies ==> r.movies[id] == st.movies[id]
    ensures r.count == |r.movies|
  {
    ContainsIsOccurrence();
    var found := map id | id in st.movies && Matches(title, st.movies[id].title) :: st.movies[id];
    Listing(found, |found|)
  }

  /** Looks a movie up with its relations joined; an unknown id yields no movie rather than
      an error. */
  function GetMovieById(st: Store, id: Id): (r: Option<MovieView>)
    requires Valid(st)
    ensures r.None? <==> id !in st.movies
    ensures r.Some? ==>
              var movie := st.movies[id];
              && r.value.id == id
              && r.value.title == movie.title
              && r.value.detail == st.details[movie.detailId]
              && r.value.director == st.directors[movie.directorId]
              && r.value.genres.Keys == movie.genreIds
              && forall g :: g in r.value.genres ==> r.value.genres[g] == st.genres[g]
  {
    if id !in st.movies then None
    else
      var movie := st.movies[id];
      var genres := map g | g in movie.genreIds :: st.genres[g];
      Some(MovieView(id, movie.title, st.details[movie.detailId], st.directors[movie.directorId], genres))
  }

  /** Every requested genre exists and none is requested twice. */
  predicate Resolvable(ids: seq<Id>, genres: map<Id, Genre>) {
    Distinct(ids) && forall i :: 0 <= i < |ids| ==> ids[i] in genres
  }

  /** What the `In(ids)` genre query finds: the distinct existing genres among `ids`. */
  function Found(ids: seq<Id>, genres: map<Id, Genre>): set<Id> {
    set g | g in ids && g in genres
  }

  /** The query finds as many genres as ids were requested exactly when every id exists
      and none repeats: a missing id and a repeated id both make the count fall short. */
  lemma {:induction false} FoundCountMatches(ids: seq<Id>, genres: map<Id, Genre>)
    ensures |Found(ids, genres)| == |ids| <==> Resolvable(ids, genres)
    ensures Resolvable(ids, genres) ==> Found(ids, genres) == ToSet(ids)
  {
    var found := Found(ids, genres);
    CardinalityOfElements(ids);
    assert found <= ToSet(ids);
    if Resolvable(ids, genres) {
      assert found == ToSet(ids);
    } else if Distinct(ids) {
      var i :| 0 <= i < |ids| && ids[i] !in genres;
      assert ids[i] in ToSet(ids) - found;
      assert |ToSet(ids)| == |found| + |ToSet(ids) - found|;
    } else {
      assert |ToSet(ids)| == |found| + |ToSet(ids) - found|;
    }
  }

  /** The genre lookup: find the genres among `ids` and fail unless the query found as many
      as ids were requested. That happens exactly when every id exists and no id repeats,
      and the genres found are then exactly the requested ones. */
  function ResolveGenres(ids: seq<Id>, genres: map<Id, Genre>): (r: Option<set<Id>>)
    ensures r.Some? <==> Resolvable(ids, genres)
    ensures r.Some? ==> r.value == ToSet(ids)
  {
    var found := Found(ids, genres);
    FoundCountMatches(ids, genres);
    if |found| == |ids| then Some(found) else None
  }

  /** The cascaded `save`: the detail row is inserted first, then the movie row, whose
      unique title may be rejected; the join rows complete the save. */
  function SaveMovie(st: Store, title: string, text: string, directorId: Id, genreIds: set<Id>): Outcome<Store, Saved> {
    var detailId := st.nextDetailId;
    var withDetail := st.(details := st.details[detailId := MovieDetail(text)], nextDetailId := detailId + 1);
    if TitleTaken(withDetail, title, None) then Outcome(withDetail, Err(QueryFailed(UniqueTitle)))
    else
      var id := withDetail.nextMovieId;
      var movie := Movie(title, detailId, directorId, genreIds);
      Outcome(withDetail.(movies := withDetail.movies[id := movie], nextMovieId := id + 1), Ok(Saved(id, movie)))
  }

  /** Creates a movie with a new detail record, the requested director and genres.
      Fails with NotFound, changing nothing, when the director is unknown or the genre
      lookup comes up short; fails on a duplicate title, again changing nothing. On success
      exactly one movie and one detail are added under fresh keys. */
  function CreateMovie(st: Store, dto: CreateMovieDto): (r: Outcome<Store, Saved>)
    requires Valid(st) && ValidCreate(dto)
    ensures r.result.Err? ==> r.store == st
    ensures dto.directorId !in st.directors ==> r.result == Err(NotFound(DirectorMissing))
    ensures dto.directorId in st.directors && !Resolvable(dto.genreIds, st.genres) ==>
              r.result == Err(NotFound(GenreMissing))
    ensures dto.directorId in st.directors && Resolvable(dto.genreIds, st.genres) && TitleTaken(st, dto.title, None) ==>
              r.result == Err(QueryFailed(UniqueTitle))
    ensures r.result.Ok? <==>
              dto.directorId in st.directors && Resolvable(dto.genreIds, st.genres) && !TitleTaken(st, dto.title, None)
    ensures r.result.Ok? ==>
              var id := r.result.value.id;
              var movie := r.result.value.movie;
              && id !in st.movies
              && movie == Movie(dto.title, movie.detailId, dto.directorId, ToSet(dto.genreIds))
              && movie.detailId !in st.details
              && r.store.movies == st.movies[id := movie]
              && r.store.details == st.details[movie.detailId := MovieDetail(dto.detail)]
              && r.store.directors == st.directors
              && r.store.genres == st.genres
              && r.store.nextDirectorId == st.nextDirectorId
  {
    if dto.directorId !in st.directors then Outcome(st, Err(NotFound(DirectorMissing)))
    else match ResolveGenres(dto.genreIds, st.genres)
      case None => Outcome(st, Err(NotFound(GenreMissing)))
      case Some(genreIds) =>
        assert !TitleTaken(st, dto.title, None) <==>
               !TitleTaken(st.(details := st.details[st.nextDetailId := MovieDetail(dto.detail)],
                               nextDetailId := st.nextDetailId + 1), dto.title, None);
        Transaction(st, SaveMovie(st, dto.title, dto.detail, dto.directorId, genreIds))
  }

  /** What an update returns: the movie reloaded with its detail and director, whose genres
      are set to the genres just looked up, and so are absent when no genre ids were sent. */
  datatype Reloaded = Reloaded(title: string, detailId: Id, directorId: Id, genreIds: Option<set<Id>>)

  /** A truthy director id: sent, not `null`, and not zero. */
  predicate DirectorGiven(dto: UpdateMovieDto) {
    dto.directorId.Present? && dto.directorId.value != 0
  }

  /** A truthy detail: sent, not `null`, and non-empty. */
  predicate DetailGiven(dto: UpdateMovieDto) {
    dto.detail.Present? && dto.detail.value != ""
  }

  /** A truthy genre list: sent and not `null` (a validated list is never empty). */
  predicate GenresGiven(dto: UpdateMovieDto) {
    dto.genreIds.Present?
  }

  /** The lookups before the writes succeed: the movie exists, a truthy director id names
      a director, and a truthy genre list resolves. */
  predicate LookupsPass(st: Store, id: Id, dto: UpdateMovieDto) {
    && id in st.movies
    && (DirectorGiven(dto) ==> dto.directorId.value in st.directors)
    && (GenresGiven(dto) ==> Resolvable(dto.genreIds.value, st.genres))
  }

  /** The writes of an update, in order: the movie row (title and director), the detail row
      in place, then the reloaded movie saved with its genres. A title sent as `null` is
      written as NULL into a non-nullable column. */
  function WriteUpdate(st: Store, id: Id, dto: UpdateMovieDto): Outcome<Store, Reloaded>
    requires id in st.movies
  {
    var movie := st.movies[id];
    if dto.title.Null? then Outcome(st, Err(QueryFailed(TitleRequired)))
    else if dto.title.Present? && TitleTaken(st, dto.title.value, Some(id)) then
      Outcome(st, Err(QueryFailed(UniqueTitle)))
    else
      var title := if dto.title.Present? then dto.title.value else movie.title;
      var directorId := if DirectorGiven(dto) then dto.directorId.value else movie.directorId;
      var st1 := st.(movies := st.movies[id := movie.(title := title, directorId := directorId)]);
      var st2 := if DetailGiven(dto) then st1.(details := st1.details[movie.detailId := MovieDetail(dto.detail.value)]) else st1;
      var reloaded := st2.movies[id];
      var genres := if GenresGiven(dto) then Some(ToSet(dto.genreIds.value)) else None;
      var saved := reloaded.(genreIds := if genres.Some? then genres.value else reloaded.genreIds);
      Outcome(st2.(movies := st2.movies[id := saved]),
              Ok(Reloaded(saved.title, saved.detailId, saved.directorId, genres)))
  }

  /** Updates only the supplied fields of a movie and returns the reloaded movie.
      Fails with NotFound, changing nothing, when the movie is unknown, when a truthy
      director id is unknown, or when a supplied genre list has an unknown or repeated id;
      fails on a `null` title or a title another movie already has, again changing
      nothing. */
  function UpdateMovie(st: Store, id: Id, dto: UpdateMovieDto): (r: Outcome<Store, Reloaded>)
    requires ValidUpdate(dto)
    ensures r.result.Err? ==> r.store == st
    ensures id !in st.movies ==> r.result == Err(NotFound(MovieMissing))
    ensures id in st.movies && DirectorGiven(dto) && dto.directorId.value !in st.directors ==>
              r.result == Err(NotFound(DirectorMissing))
    ensures id in st.movies && !(DirectorGiven(dto) && dto.directorId.value !in st.directors)
            && GenresGiven(dto) && !Resolvable(dto.genreIds.value, st.genres) ==>
              r.result == Err(NotFound(GenreMissing))
    ensures LookupsPass(st, id, dto) && dto.title.Null? ==> r.result == Err(QueryFailed(TitleRequired))
    ensures LookupsPass(st, id, dto) && dto.title.Present? && TitleTaken(st, dto.title.value, Some(id)) ==>
              r.result == Err(QueryFailed(UniqueTitle))
    ensures r.result.Ok? <==>
              && LookupsPass(st, id, dto)
              && !dto.title.Null?
              && !(dto.title.Present? && TitleTaken(st, dto.title.value, Some(id)))
    ensures r.result.Ok? ==> id in r.store.movies
    ensures r.result.Ok? ==>
              var before := st.movies[id];
              var after := r.store.movies[id];
              && r.store.movies == st.movies[id := after]
              && after.title == (if dto.title.Present? then dto.title.value else before.title)
              && after.directorId == (if DirectorGiven(dto) then dto.directorId.value else before.directorId)
              && after.genreIds == (if GenresGiven(dto) then ToSet(dto.genreIds.value) else before.genreIds)
              && after.detailId == before.detailId
              && r.result.value == Reloaded(after.title, after.detailId, after.directorId,
                                            if GenresGiven(dto) then Some(after.genreIds) else None)
              && r.store.details ==
                   (if DetailGiven(dto) then st.details[before.detailId := MovieDetail(dto.detail.value)] else st.details)
              && r.store.directors == st.directors
              && r.store.genres == st.genres
              && r.store.nextMovieId == st.nextMovieId
              && r.store.nextDetailId == st.nextDetailId
              && r.store.nextDirectorId == st.nextDirectorId
  {
    if id !in st.movies then Outcome(st, Err(NotFound(MovieMissing)))
    else if DirectorGiven(dto) && dto.directorId.value !in st.directors then
      Outcome(st, Err(NotFound(DirectorMissing)))
    else if GenresGiven(dto) && ResolveGenres(dto.genreIds.value, st.genres).None? then
      Outcome(st, Err(NotFound(GenreMissing)))
    else
      Transaction(st, WriteUpdate(st, id, dto))
  }

  /** Deletes a movie and the detail it owns, and returns its id; its director and genres
      stay. An unknown id fails with NotFound. */
  function DeleteMovie(st: Store, id: Id): (r: Outcome<Store, Id>)
    ensures id !in st.movies ==> r == Outcome(st, Err(NotFound(MovieMissing)))
    ensures id in st.movies ==>
              && r.result == Ok(id)
              && r.store.movies == st.movies - {id}
              && r.store.details == st.details - {st.movies[id].detailId}
              && r.store.directors == st.directors
              && r.store.genres == st.genres
  {
    if id !in st.movies then Outcome(st, Err(NotFound(MovieMissing)))
    else
      var movie := st.movies[id];
      var withoutMovie := st.(movies := st.movies - {id});
      var withoutDetail := withoutMovie.(details := withoutMovie.details - {movie.detailId});
      Outcome(withoutDetail, Ok(id))
  }

  /** A successful create keeps the schema's constraints: the new movie's references
      resolve, its title is new and its detail is its own. */
  lemma CreateMovieKeepsValid(st: Store, dto: CreateMovieDto)
    requires Valid(st) && ValidCreate(dto)
    ensures Valid(CreateMovie(st, dto).store)
  {
    var r := CreateMovie(st, dto);
    if r.result.Ok? {
      var id := r.result.value.id;
      var movie := r.result.value.movie;
      assert r.store.nextMovieId == id + 1 && r.store.nextDetailId == movie.detailId + 1;
      forall g | g in movie.genreIds ensures g in st.genres {
        var i :| 0 <= i < |dto.genreIds| && dto.genreIds[i] == g;
      }
      forall m | m in st.movies ensures st.movies[m].title != dto.title {
        assert !TitleTaken(st, dto.title, None);
      }
    }
  }

  /** A successful update keeps the schema's constraints. */
  lemma UpdateMovieKeepsValid(st: Store, id: Id, dto: UpdateMovieDto)
    requires Valid(st) && ValidUpdate(dto)
    ensures Valid(UpdateMovie(st, id, dto).store)
  {
    var r := UpdateMovie(st, id, dto);
    if r.result.Ok? {
      var after := r.store.movies[id];
      if GenresGiven(dto) {
        forall g | g in after.genreIds ensures g in st.genres {
          var i :| 0 <= i < |dto.genreIds.value| && dto.genreIds.value[i] == g;
        }
      }
      if dto.title.Present? {
        forall m | m in st.movies && m != id ensures st.movies[m].title != after.title {
          assert !TitleTaken(st, dto.title.value, Some(id));
        }
      }
    }
  }

  /** A delete keeps the schema's constraints: since no two movies share a detail, the
      detail removed with the movie belongs to no remaining movie. */
  lemma DeleteMovieKeepsValid(st: Store, id: Id)
    requires Valid(st)
    ensures Valid(DeleteMovie(st, id).store)
  {
    var r := DeleteMovie(st, id);
    if id in st.movies {
      forall m | m in r.store.movies ensures References(r.store, r.store.movies[m]) {
        assert m != id;
        assert st.movies[m].detailId != st.movies[id].detailId;
      }
    }
  }

  /** Deleting the movie just created gives back the catalog as it was: delete undoes
      create, apart from the key counters. */
  lemma DeleteUndoesCreate(st: Store, dto: CreateMovieDto)
    requires Valid(st) && ValidCreate(dto)
    requires CreateMovie(st, dto).result.Ok?
    ensures var created := CreateMovie(st, dto);
            var deleted := DeleteMovie(created.store, created.result.value.id);
            && deleted.result == Ok(created.result.value.id)
            && deleted.store.movies == st.movies
            && deleted.store.details == st.details
            && deleted.store.directors == st.directors
            && deleted.store.genres == st.genres
  {
    var created := CreateMovie(st, dto);
    var id := created.result.value.id;
    var movie := created.result.value.movie;
    var deleted := DeleteMovie(created.store, id);
    assert deleted.store.movies == st.movies[id := movie] - {id};
    assert deleted.store.movies == st.movies;
    assert deleted.store.details == st.details[movie.detailId := MovieDetail(dto.detail)] - {movie.detailId};
    assert deleted.store.details == st.details;
  }

  /** A created movie can be read back with exactly the title, detail text, director and
      genres that were requested. */
  lemma CreatedMovieIsVisible(st: Store, dto: CreateMovieDto)
    requires Valid(st) && ValidCreate(dto)
    requires CreateMovie(st, dto).result.Ok?
    ensures var created := CreateMovie(st, dto);
            && Valid(created.store)
            && var view := GetMovieById(created.store, created.result.value.id);
            && view.Some?
            && view.value.title == dto.title
            && view.value.detail == MovieDetail(dto.detail)
            && view.value.director == st.directors[dto.directorId]
            && view.value.genres.Keys == ToSet(dto.genreIds)
            && forall g :: g in view.value.genres ==> view.value.genres[g] == st.genres[g]
  {
    CreateMovieKeepsValid(st, dto);
  }

  /** Applying the same update twice has the effect of applying it once, and returns the
      same movie. */
  lemma UpdateIsIdempotent(st: Store, id: Id, dto: UpdateMovieDto)
    requires Valid(st) && ValidUpdate(dto)
    requires UpdateMovie(st, id, dto).result.Ok?
    ensures var once := UpdateMovie(st, id, dto);
            var twice := UpdateMovie(once.store, id, dto);
            twice == once
  {
    var once := UpdateMovie(st, id, dto);
    var twice := UpdateMovie(once.store, id, dto);
    if dto.title.Present? {
      assert !TitleTaken(st, dto.title.value, Some(id));
      assert !TitleTaken(once.store, dto.title.value, Some(id));
    }
    assert twice.result.Ok?;
    var after := once.store.movies[id];
    assert twice.store.movies[id] == after;
    assert twice.result.value == once.result.value;
    assert twice.store.movies == once.store.movies[id := after] == once.store.movies;
    assert twice.store.details == once.store.details;
    assert twice.store == once.store;
  }
}
