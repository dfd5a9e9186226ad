/** The movie request bodies and the validation rules their DTOs declare. */
module MovieDto {
  import opened Wrappers
  import opened Errors
  import opened Catalog

  /** A field of a JSON body: left out, sent as `null`, or sent with a value. */
  datatype Field<T> = Absent | Null | Present(value: T)

  /** A request body as it arrives: every field may be left out or be `null`. */
  datatype MovieBody = MovieBody(
    title: Field<string>,
    detail: Field<string>,
    directorId: Field<Id>,
    genreIds: Field<seq<Id>>)

  datatype CreateMovieDto = CreateMovieDto(title: string, detail: string, directorId: Id, genreIds: seq<Id>)

  /** The update body after validation. `@IsOptional()` skips every rule for a field that is
      left out or `null`, so both reach the service. */
  datatype UpdateMovieDto = UpdateMovieDto(
    title: Field<string>,
    genreIds: Field<seq<Id>>,
    detail: Field<string>,
    directorId: Field<Id>)

  /** What a validated create body guarantees: non-empty title and detail, a non-empty
      genre list. */
  predicate ValidCreate(dto: CreateMovieDto) {
    dto.title != "" && dto.detail != "" && |dto.genreIds| > 0
  }

  /** What a validated update body guarantees: each field sent with a value is non-empty. */
  predicate ValidUpdate(dto: UpdateMovieDto) {
    dto.title != Present("") && dto.genreIds != Present([]) && dto.detail != Present("")
  }

  /** The validation pipe on a create body: every field is required and none may be `null`;
      title and detail must be non-empty strings, the director id a number, the genre ids a
      non-empty list of numbers. */
  function ValidateCreate(body: MovieBody): (r: Result<CreateMovieDto, Error>)
    ensures r.Ok? <==>
              && body.title.Present? && body.title.value != ""
              && body.detail.Present? && body.detail.value != ""
              && body.directorId.Present?
              && body.genreIds.Present? && |body.genreIds.value| > 0
    ensures r.Ok? ==> ValidCreate(r.value)
    ensures r.Ok? ==>
              && body.title == Present(r.value.title)
              && body.detail == Present(r.value.detail)
              && body.directorId == Present(r.value.directorId)
              && body.genreIds == Present(r.value.genreIds)
    ensures r.Err? ==> r.error == BadRequest(ValidationFailed)
  {
    match (body.title, body.detail, body.directorId, body.genreIds)
    case (Present(title), Present(detail), Present(directorId), Present(genreIds)) =>
      if title == "" || detail == "" || genreIds == [] then Err(BadRequest(ValidationFailed))
      else Ok(CreateMovieDto(title, detail, directorId, genreIds))
    case _ => Err(BadRequest(ValidationFailed))
  }

  /** The validation pipe on an update body: every field is optional, a field left out or
      `null` is not checked, and a field sent with a value must be non-empty (for the genre
      ids: a non-empty list). A director id is a number and never counts as empty. */
  function ValidateUpdate(body: MovieBody): (r: Result<UpdateMovieDto, Error>)
    ensures r.Ok? <==>
              && body.title != Present("")
              && body.detail != Present("")
              && body.genreIds != Present([])
    ensures r.Ok? ==> ValidUpdate(r.value)
    ensures r.Ok? ==>
              && r.value.title == body.title
              && r.value.detail == body.detail
              && r.value.directorId == body.directorId
              && r.value.genreIds == body.genreIds
    ensures r.Err? ==> r.error == BadRequest(ValidationFailed)
  {
    var emptyTitle := body.title.Present? && body.title.value == "";
    var emptyDetail := body.detail.Present? && body.detail.value == "";
    var emptyGenres := body.genreIds.Present? && |body.genreIds.value| == 0;
    if emptyTitle || emptyDetail || emptyGenres then Err(BadRequest(ValidationFailed))
    else Ok(UpdateMovieDto(body.title, body.genreIds, body.detail, body.directorId))
  }
}
