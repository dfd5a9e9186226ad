/** The catalog's records and the relational store that holds them. A movie row carries a
    unique title, the join column of its one-to-one detail, a required many-to-one
    director and the genre ids of its many-to-many join table. */
module Catalog {
  import opened Wrappers
  import opened Errors

  /** A primary key. */
  type Id = int

  /** A director row; its fields are opaque to the catalog. */
  datatype Director = Director(name: string, dob: string, nationality: string)

  datatype Genre = Genre(name: string)

  /** The free-text detail owned by exactly one movie. */
  datatype MovieDetail = MovieDetail(text: string)

  datatype Movie = Movie(title: string, detailId: Id, directorId: Id, genreIds: set<Id>)

  /** The tables, each keyed by primary key, and the next value of each auto-increment key. */
  datatype Store = Store(
    movies: map<Id, Movie>,
    details: map<Id, MovieDetail>,
    directors: map<Id, Director>,
    genres: map<Id, Genre>,
    nextMovieId: Id,
    nextDetailId: Id,
    nextDirectorId: Id)

  /** Every reference of `movie` resolves: its detail, its director and each of its genres. */
  ghost predicate References(st: Store, movie: Movie) {
    && movie.detailId in st.details
    && movie.directorId in st.directors
    && movie.genreIds <= st.genres.Keys
  }

  /** The schema's constraints: foreign keys resolve, titles are unique, no two movies share
      a detail (one-to-one), and every key lies below its auto-increment counter. */
  ghost predicate Valid(st: Store) {
    && (forall m :: m in st.movies ==> References(st, st.movies[m]))
    && (forall m, n :: m in st.movies && n in st.movies && m != n ==>
          st.movies[m].title != st.movies[n].title)
    && (forall m, n :: m in st.movies && n in st.movies && m != n ==>
          st.movies[m].detailId != st.movies[n].detailId)
    && (forall m :: m in st.movies ==> m < st.nextMovieId)
    && (forall d :: d in st.details ==> d < st.nextDetailId)
    && (forall d :: d in st.directors ==> d < st.nextDirectorId)
  }

  /** Some movie other than `except` already has `title`: writing it would violate the
      unique constraint. */
  predicate TitleTaken(st: Store, title: string, except: Option<Id>) {
    exists m :: m in st.movies && Some(m) != except && st.movies[m].title == title
  }

  /** A query-runner transaction around a unit of work: commit on success, roll back to
      the state before the work on any error. */
  function Transaction<T>(before: Store, work: Outcome<Store, T>): (r: Outcome<Store, T>)
    ensures r.result == work.result
    ensures r.result.Err? ==> r.store == before
    ensures r.result.Ok? ==> r.store == work.store
  {
    if work.result.Err? then Outcome(before, work.result) else work
  }
}
