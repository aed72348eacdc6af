# Movie/actor catalogue: table actions and review normalisation

This project models the core of a small ASP.NET MVC catalogue of movies, actors and the
links between them (the ActorMovie join table), and proves properties of the model in Dafny.

Two parts of the application are modelled:

* **The POST actions of the three controllers** (`Create`, `Edit`, `DeleteConfirmed`) as pure
  functions from a table and the posted form to an `Outcome` (`Redirect`, `NotFound`,
  `Rejected(Duplicate)`, `Rejected(Invalid)`) and the table left behind. Tables are maps from the
  integer id to immutable records (`Movies.Movie`, `Actors.Actor`, `ActorMovies.ActorMovie`).
  `ModelState.IsValid` is a boolean input. An uploaded file is `Option<seq<bv8>>`; only a
  present, non-empty upload counts (`Common.HasContent`). The id the database assigns to an
  inserted row is a parameter `newId`: a positive key not yet in the table (`Common.IsFreshKey`).
  Stored rows sit under positive keys equal to their own id, so 0 never names a row.
  The properties proved are these:
  * the application-level uniqueness rules: movies on (title, year of release), links on
    (actor id, movie id);
  * the self-exclusion of the edit checks;
  * the path-id/body-id mismatch and absent-row `NotFound` answers, and the insert that an
    edit with the unset id 0 performs;
  * poster and photo preservation when no new file is uploaded;
  * delete is idempotent and touches only the named row;
  * every rejected or not-found post leaves the table unchanged.
* **The review list of the movie details page** (`Reviews.NormalizeReviews`). The critics'
  answer is split at `'|'` and each piece trimmed. Blank pieces are dropped. The list is then
  cut to three, or padded to three with `"Review of <title>: A compelling film worth watching."`.
  The answer text is an arbitrary input string. `String.Split`, `String.Trim` and
  `String.IsNullOrWhiteSpace` are modelled in `Text`. White space is the set of characters
  `Char.IsWhiteSpace` accepts, but no proof depends on which characters those are.

Modules: `Common` holds the option and upload types, the outcome and the generic
`DeleteConfirmed` that all three controllers implement identically. `Text` holds the string
primitives, `Reviews` the review normalisation, and `Movies`, `Actors` and `ActorMovies` one
controller each.

Three facts about the code are worth stating outright:

* `ActorsController` has no (name, age) check on create or edit
  (`ActorsController.cs:60-78`, `101-151`), so the model imposes no uniqueness rule on actors.
  `Actors.CreateAllowsSameNameAndAge` shows that two actors with the same name and age are both
  stored.
* `Details` always averages over exactly three reviews (`MoviesController.cs:72-84`, `99`), so
  the average never divides by zero; `Reviews.NormalizeReviews` proves the length is 3.
* An edit posted with the unset id 0 (path id and body id both 0) is not answered NotFound:
  Entity Framework tracks an entity whose generated key still has its default value as new, so
  `Update` followed by `SaveChangesAsync` inserts it under a fresh key and the action redirects.
  All three `Edit` functions model this through `Common.WriteKey` and a fresh-key parameter
  `newId`.

## Model

| member | source | states |
|---|---|---|
| Common.DeleteConfirmed | Fall2025-Project3-esbusby/Fall2025-Project3-esbusby/Controllers/MoviesController.cs:247-257 | Delete always redirects. It removes exactly the named key, keeps every other row as it was, and leaves the table unchanged when the id is absent. The same action is at ActorMoviesController.cs:175-185 and ActorsController.cs:174-184. |
| Common.DeleteIdempotent | Fall2025-Project3-esbusby/Fall2025-Project3-esbusby/Controllers/ActorsController.cs:174-184 | Confirming a delete a second time answers the same and leaves the same table as confirming it once. |
| Text.Split | Fall2025-Project3-esbusby/Fall2025-Project3-esbusby/Controllers/MoviesController.cs:67 | Splitting yields at least one piece, no piece contains the separator, and joining the pieces with the separator gives back the original text. |
| Text.SplitJoin | Fall2025-Project3-esbusby/Fall2025-Project3-esbusby/Controllers/MoviesController.cs:67 | Splitting a join of separator-free pieces returns exactly those pieces, so Split and Join are inverse. |
| Text.Trim | Fall2025-Project3-esbusby/Fall2025-Project3-esbusby/Controllers/MoviesController.cs:68 | A trimmed string has no white space at either end. It is empty exactly when the input is blank. |
| Text.TrimIsWindow | Fall2025-Project3-esbusby/Fall2025-Project3-esbusby/Controllers/MoviesController.cs:68 | Trim removes only white space: its result is a contiguous window of the input with only white space on either side. |
| Reviews.NonBlankTrimmed | Fall2025-Project3-esbusby/Fall2025-Project3-esbusby/Controllers/MoviesController.cs:68-69 | Every piece that survives trimming and the blank filter is non-empty and has no white space at either end, and no more pieces survive than went in. |
| Reviews.NonBlankTrimmedAppend | Fall2025-Project3-esbusby/Fall2025-Project3-esbusby/Controllers/MoviesController.cs:67-70 | Trimming and dropping blank pieces distributes over concatenation, so the surviving reviews keep their original order. |
| Reviews.KeptFromPieces | Fall2025-Project3-esbusby/Fall2025-Project3-esbusby/Controllers/MoviesController.cs:67-70 | Every surviving review is the trimmed form of some piece of the answer. |
| Reviews.NonBlankSurvives | Fall2025-Project3-esbusby/Fall2025-Project3-esbusby/Controllers/MoviesController.cs:67-70 | Every piece whose trimmed form is not blank survives, as that trimmed form; with `KeptFromPieces`, the surviving reviews are exactly the non-blank trimmed pieces. |
| Reviews.NormalizeReviews | Fall2025-Project3-esbusby/Fall2025-Project3-esbusby/Controllers/MoviesController.cs:67-99 | Exactly three reviews come out, so the sentiment average divides by 3 and never by zero. With at least three non-blank pieces the result is the first three, in order. With fewer, those pieces come first and every remaining slot is the title's filler review. Every entry is either the filler or a non-empty, trimmed piece of the answer. |
| Reviews.CandidatesOfJoined | Fall2025-Project3-esbusby/Fall2025-Project3-esbusby/Controllers/MoviesController.cs:61-70 | An answer in the requested format (non-empty, trimmed, separator-free reviews joined by '\|') yields exactly those reviews, in order. |
| Movies.Create | Fall2025-Project3-esbusby/Fall2025-Project3-esbusby/Controllers/MoviesController.cs:116-144 | The post is rejected as a duplicate exactly when some movie already has the same title and year. It is rejected as invalid exactly when there is no duplicate and the model state is invalid. A rejection leaves the table unchanged. Success adds one row under the new id with the submitted fields and changes no other row. The poster is the upload when it has content and absent otherwise. Uniqueness of (title, year) is preserved. |
| Movies.Edit | Fall2025-Project3-esbusby/Fall2025-Project3-esbusby/Controllers/MoviesController.cs:165-224 | A path id that differs from the body id gives NotFound with the table unchanged. The post is a duplicate exactly when a movie with a different id has the same title and year. A row that is absent at write time gives NotFound, except that the unset id 0 inserts a new row under a fresh key. Otherwise success rewrites only that row with the submitted fields. A non-empty upload becomes the poster; otherwise the poster stored under the path id is kept exactly (none for id 0). Uniqueness of (title, year) is preserved. |
| Movies.EditKeepingTitleYearSucceeds | Fall2025-Project3-esbusby/Fall2025-Project3-esbusby/Controllers/MoviesController.cs:172-181 | In a valid table, re-saving a movie under its own title and year is not a duplicate: the edit succeeds. |
| Movies.EditWithUnsetIdAddsMovie | Fall2025-Project3-esbusby/Fall2025-Project3-esbusby/Controllers/MoviesController.cs:185-221 | In a valid table, a valid edit posted with id 0 and a free title and year redirects and adds one movie under a fresh key, with the uploaded poster or none. |
| Movies.CreateTwiceIsRejected | Fall2025-Project3-esbusby/Fall2025-Project3-esbusby/Controllers/MoviesController.cs:119-126 | After a successful create, a second create with the same title and year is rejected as a duplicate and leaves the table unchanged. |
| Movies.DeletePreservesValid | Fall2025-Project3-esbusby/Fall2025-Project3-esbusby/Controllers/MoviesController.cs:249-253 | Deleting a movie keeps the table well-formed and free of (title, year) duplicates. |
| Actors.Create | Fall2025-Project3-esbusby/Fall2025-Project3-esbusby/Controllers/ActorsController.cs:60-78 | The post succeeds exactly when the model state is valid; there is no duplicate check. Success adds one row under the new id with the submitted name, gender, age and link, and changes no other row. The photo is the upload when it has content and absent otherwise. An invalid post leaves the table unchanged. |
| Actors.Edit | Fall2025-Project3-esbusby/Fall2025-Project3-esbusby/Controllers/ActorsController.cs:101-151 | A path id that differs from the body id gives NotFound with the table unchanged. An invalid model state is rejected with the table unchanged. An absent row gives NotFound, except that the unset id 0 inserts a new row under a fresh key. No post is ever rejected as a duplicate. Otherwise success rewrites only that row with the submitted fields. A non-empty upload becomes the photo; otherwise the photo stored under the path id is kept exactly (none for id 0). |
| Actors.CreateAllowsSameNameAndAge | Fall2025-Project3-esbusby/Fall2025-Project3-esbusby/Controllers/ActorsController.cs:62-75 | Creating the same actor twice stores two rows that share name and age: the actor table has no (name, age) uniqueness rule. |
| Actors.EditWithoutUploadKeepsCreatedPhoto | Fall2025-Project3-esbusby/Fall2025-Project3-esbusby/Controllers/ActorsController.cs:116-132 | An edit that uploads nothing, made right after a create with a photo, succeeds and still carries the photo given at creation. |
| Actors.DeletePreservesWellFormed | Fall2025-Project3-esbusby/Fall2025-Project3-esbusby/Controllers/ActorsController.cs:176-180 | Deleting an actor keeps every remaining row stored under its own id. |
| ActorMovies.Create | Fall2025-Project3-esbusby/Fall2025-Project3-esbusby/Controllers/ActorMoviesController.cs:60-83 | The post is rejected as a duplicate exactly when a link with the same actor and movie exists. It is rejected as invalid exactly when there is no duplicate and the model state is invalid. A rejection leaves the table unchanged. Success adds exactly one row carrying the submitted pair under the new id and changes no other row. Uniqueness of (actor, movie) is preserved. |
| ActorMovies.Edit | Fall2025-Project3-esbusby/Fall2025-Project3-esbusby/Controllers/ActorMoviesController.cs:106-150 | A path id that differs from the body id gives NotFound with the table unchanged. The post is a duplicate exactly when a link with a different id has the same pair. An invalid model state is rejected with the table unchanged. A row absent at write time gives NotFound, except that the unset id 0 inserts the submitted pair under a fresh key. Otherwise success replaces only that row by the submitted link. Uniqueness of (actor, movie) is preserved. |
| ActorMovies.EditKeepingPairSucceeds | Fall2025-Project3-esbusby/Fall2025-Project3-esbusby/Controllers/ActorMoviesController.cs:113-125 | In a valid table, saving a link with its own current pair succeeds: the duplicate check excludes the record being edited. |
| ActorMovies.CreateTwiceIsRejected | Fall2025-Project3-esbusby/Fall2025-Project3-esbusby/Controllers/ActorMoviesController.cs:62-72 | After a successful create, linking the same actor to the same movie again is rejected as a duplicate and leaves the table unchanged. |
| ActorMovies.DeletePreservesValid | Fall2025-Project3-esbusby/Fall2025-Project3-esbusby/Controllers/ActorMoviesController.cs:177-181 | Deleting a link keeps the table well-formed and free of duplicate pairs. |

Record fields come from `Models/Movie.cs:8-13` and `Models/Actor.cs:8-13`. A link record has
exactly the three fields the link forms bind (`Controllers/ActorMoviesController.cs:60`): Id,
ActorId and MovieId.

## Left out

- Movies.Create: the (title, year) pre-check compares titles by exact string equality, with two null titles equal. The comparison runs in the database, whose collation may ignore case or trailing spaces; that is not modelled.
- Movies.Edit: the same exact-equality title comparison as `Movies.Create`.
- The chat-completion call that produces the critics' answer (`MoviesController.cs:52-65`) is an external network service. Its answer is an arbitrary input string of `Reviews.NormalizeReviews`.
- The sentiment scoring and averaging (`MoviesController.cs:86-102`) use a foreign lexicon library and floating point. Only the fact that exactly three reviews are averaged is kept.
- The GET actions are left out, apart from the review list `Details` builds (`Reviews.NormalizeReviews`). `Index` lists a table. `Details`, `Edit` and `Delete` look a row up, answer NotFound for a null or absent id, and render a view; the GET form of `Create` renders a view, with select lists of actors and movies for a link.
- View data, select lists, anti-forgery, model binding and the copy of an upload into a `MemoryStream` are UI and I/O. An upload is its byte contents.
- Entity Framework machinery is replaced by plain maps. This covers change tracking, eager loading, `AsNoTracking` and async/await.
- Concurrency is left out. This covers the race between a duplicate check and the insert that follows it, and concurrent deletes. Only the sequential case of an edit whose row is absent at write time is modelled; it is answered NotFound. The rethrow of a concurrency exception while the row still exists cannot happen sequentially.
- Database-assigned ids are the parameter `newId`, required to be a fresh positive key; which key the database picks is not modelled. The model ignores a non-zero id posted with a create form; Entity Framework sends it to the database, whose answer is not modelled.
- Foreign-key existence of a link's actor and movie is not checked by the controllers, so it is not modelled; a database foreign-key failure on insert would be an exception. Cascade deletion of links when an actor or movie is deleted is not modelled either.
- Strings are sequences of Unicode scalar values. A C# string holding a lone surrogate has no counterpart. `'|'` and every white-space character are single code units of the Basic Multilingual Plane, so every well-formed string splits and trims at the same places.
- The Identity tables of the database context are not used by the core.
- C# `int` ids, ages and years are modelled as unbounded integers. The actions only compare them, so no wrap-around can arise.
