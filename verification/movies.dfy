/** The Movie table and the POST actions of the movies controller. A movie is identified
    by its id; the controller additionally refuses a second movie with the same title and
    year of release, and keeps a stored poster when an edit uploads no new one. */
module Movies {
  import opened Common

  /** A row of the Movie table. */
  datatype Movie = Movie(
    id: int,
    title: Option<string>,
    imdbLink: Option<string>,
    genre: Option<string>,
    yearOfRelease: int,
    poster: Option<Bytes>)

  /** The fields a create or edit form binds: every column but the poster. */
  datatype MovieForm = MovieForm(
    id: int,
    title: Option<string>,
    imdbLink: Option<string>,
    genre: Option<string>,
    yearOfRelease: int)

  type Table = map<int, Movie>

  /** The row a form describes, stored under `id` with the given poster. */
  function FromForm(form: MovieForm, id: int, poster: Option<Bytes>): Movie
  {
    Movie(id, form.title, form.imdbLink, form.genre, form.yearOfRelease, poster)
  }

  /** Every row is stored under its own id, which the database assigned. */
  predicate WellFormed(table: Table)
  {
    forall k :: k in table ==> IsAssignedKey(k) && table[k].id == k
  }

  /** No two rows share a title and a year of release. */
  predicate UniqueTitleYear(table: Table)
  {
    forall j, k :: j in table && k in table && j != k ==>
      table[j].title != table[k].title || table[j].yearOfRelease != table[k].yearOfRelease
  }

  predicate Valid(table: Table)
  {
    WellFormed(table) && UniqueTitleYear(table)
  }

  /** Some row has this title and year (the pre-check of Create). */
  predicate TitleYearTaken(table: Table, title: Option<string>, year: int)
  {
    exists k :: k in table && table[k].title == title && table[k].yearOfRelease == year
  }

  /** Some row whose id is not `self` has this title and year (the pre-check of Edit). */
  predicate TitleYearTakenByOther(table: Table, title: Option<string>, year: int, self: int)
  {
    exists k :: k in table && table[k].title == title && table[k].yearOfRelease == year
                && table[k].id != self
  }

  /** POST Create. `newId` stands for the key the database assigns to an inserted row. */
  function Create(table: Table, form: MovieForm, poster: Upload, isValid: bool, newId: int): (r: Step<Movie>)
    requires IsFreshKey(table, newId)
    ensures r.outcome == Rejected(Duplicate) <==>
              TitleYearTaken(table, form.title, form.yearOfRelease)
    ensures r.outcome == Rejected(Invalid) <==>
              !TitleYearTaken(table, form.title, form.yearOfRelease) && !isValid
    ensures r.outcome != NotFound
    ensures r.outcome != Redirect ==> r.table == table
    ensures r.outcome == Redirect ==>
              && r.table.Keys == table.Keys + {newId}
              && (forall k :: k in table ==> r.table[k] == table[k])
              && r.table[newId].id == newId
              && r.table[newId].title == form.title
              && r.table[newId].imdbLink == form.imdbLink
              && r.table[newId].genre == form.genre
              && r.table[newId].yearOfRelease == form.yearOfRelease
    ensures r.outcome == Redirect && HasContent(poster) ==> r.table[newId].poster == poster
    ensures r.outcome == Redirect && !HasContent(poster) ==> r.table[newId].poster == None
    ensures Valid(table) ==> Valid(r.table)
  {
    if TitleYearTaken(table, form.title, form.yearOfRelease) then
      Step(Rejected(Duplicate), table)
    else if !isValid then
      Step(Rejected(Invalid), table)
    else
      Step(Redirect, table[newId := FromForm(form, newId, BlobAfter(poster, None))])
  }

  /** POST Edit of the movie at path id `id`. The update is written under `WriteKey(id, newId)`:
      an unset id (0) makes it an insert under the fresh key `newId`; an update of any other
      id that is not (or no longer) in the table affects nothing and is answered NotFound. */
  function Edit(table: Table, id: int, form: MovieForm, poster: Upload, isValid: bool, newId: int): (r: Step<Movie>)
    requires IsFreshKey(table, newId)
    ensures id != form.id ==> r == Step(NotFound, table)
    ensures r.outcome == Rejected(Duplicate) <==>
              id == form.id && TitleYearTakenByOther(table, form.title, form.yearOfRelease, id)
    ensures r.outcome == Rejected(Invalid) <==>
              id == form.id && !TitleYearTakenByOther(table, form.title, form.yearOfRelease, id) && !isValid
    ensures r.outcome == Redirect <==>
              id == form.id && !TitleYearTakenByOther(table, form.title, form.yearOfRelease, id)
              && isValid && (id in table || id == UnsetKey)
    ensures (id == form.id && !TitleYearTakenByOther(table, form.title, form.yearOfRelease, id)
             && isValid && id !in table && id != UnsetKey) ==> r == Step(NotFound, table)
    ensures r.outcome != Redirect ==> r.table == table
    ensures r.outcome == Redirect ==>
              var key := WriteKey(id, newId);
              && r.table.Keys == table.Keys + {key}
              && (forall k :: k in table && k != key ==> r.table[k] == table[k])
              && r.table[key].id == key
              && r.table[key].title == form.title
              && r.table[key].imdbLink == form.imdbLink
              && r.table[key].genre == form.genre
              && r.table[key].yearOfRelease == form.yearOfRelease
    ensures r.outcome == Redirect && id != UnsetKey ==> r.table.Keys == table.Keys
    ensures r.outcome == Redirect && HasContent(poster) ==> r.table[WriteKey(id, newId)].poster == poster
    ensures r.outcome == Redirect && !HasContent(poster) ==>
              r.table[WriteKey(id, newId)].poster == (if id in table then table[id].poster else None)
    ensures Valid(table) ==> Valid(r.table)
  {
    if id != form.id then
      Step(NotFound, table)
    else if TitleYearTakenByOther(table, form.title, form.yearOfRelease, id) then
      Step(Rejected(Duplicate), table)
    else if !isValid then
      Step(Rejected(Invalid), table)
    else
      var kept := if id in table then table[id].poster else None;
      if id != UnsetKey && id !in table then
        Step(NotFound, table)
      else
        var key := WriteKey(id, newId);
        Step(Redirect, table[key := FromForm(form, key, BlobAfter(poster, kept))])
  }

  /** Submitting a movie again under its own title and year is not a duplicate of itself:
      the edit goes through. */
  lemma EditKeepingTitleYearSucceeds(table: Table, id: int, form: MovieForm, poster: Upload, newId: int)
    requires Valid(table) && IsFreshKey(table, newId)
    requires id in table && form.id == id
    requires form.title == table[id].title && form.yearOfRelease == table[id].yearOfRelease
    ensures Edit(table, id, form, poster, true, newId).outcome == Redirect
  {
  }

  /** An edit posted with the unset id 0 (and a free title and year) adds a movie under a fresh
      key instead of changing one, with no poster unless one is uploaded. */
  lemma EditWithUnsetIdAddsMovie(table: Table, form: MovieForm, poster: Upload, newId: int)
    requires Valid(table) && IsFreshKey(table, newId)
    requires form.id == UnsetKey && !TitleYearTaken(table, form.title, form.yearOfRelease)
    ensures var r := Edit(table, UnsetKey, form, poster, true, newId);
            && r.outcome == Redirect
            && r.table.Keys == table.Keys + {newId}
            && r.table[newId].poster == (if HasContent(poster) then poster else None)
  {
  }

  /** Creating the same title and year twice: whatever the first post did, the second one is
      rejected as a duplicate and leaves the table as the first left it. */
  lemma CreateTwiceIsRejected(table: Table, form: MovieForm, poster: Upload, newId: int,
                              form2: MovieForm, poster2: Upload, newId2: int)
    requires IsFreshKey(table, newId)
    requires Create(table, form, poster, true, newId).outcome == Redirect
    requires form2.title == form.title && form2.yearOfRelease == form.yearOfRelease
    requires IsFreshKey(Create(table, form, poster, true, newId).table, newId2)
    ensures var after := Create(table, form, poster, true, newId).table;
            Create(after, form2, poster2, true, newId2) == Step(Rejected(Duplicate), after)
  {
  }

  /** Deleting a row keeps the table well-formed and free of title/year duplicates. */
  lemma DeletePreservesValid(table: Table, id: int)
    requires Valid(table)
    ensures Valid(DeleteConfirmed(table, id).table)
  {
  }
}
