/** The ActorMovie join table and the POST actions of its controller. A link says that an
    actor appears in a movie; the controller refuses a second link for the same actor and
    movie, on create and on edit. Neither action checks that the actor or the movie exists. */
module ActorMovies {
  import opened Common

  /** A row of the ActorMovie table; it is also exactly what the create and edit forms bind. */
  datatype ActorMovie = ActorMovie(id: int, actorId: int, movieId: int)

  type Table = map<int, ActorMovie>

  /** Every row is stored under its own id, which the database assigned. */
  predicate WellFormed(table: Table)
  {
    forall k :: k in table ==> IsAssignedKey(k) && table[k].id == k
  }

  /** No two rows link the same actor to the same movie. */
  predicate UniquePairs(table: Table)
  {
    forall j, k :: j in table && k in table && j != k ==>
      table[j].actorId != table[k].actorId || table[j].movieId != table[k].movieId
  }

  predicate Valid(table: Table)
  {
    WellFormed(table) && UniquePairs(table)
  }

  /** Some row links this actor to this movie (the pre-check of Create). */
  predicate PairTaken(table: Table, actorId: int, movieId: int)
  {
    exists k :: k in table && table[k].actorId == actorId && table[k].movieId == movieId
  }

  /** Some row whose id is not `self` links this actor to this movie (the pre-check of Edit). */
  predicate PairTakenByOther(table: Table, actorId: int, movieId: int, self: int)
  {
    exists k :: k in table && table[k].actorId == actorId && table[k].movieId == movieId
                && table[k].id != self
  }

  /** POST Create. `newId` stands for the key the database assigns to an inserted row. */
  function Create(table: Table, link: ActorMovie, isValid: bool, newId: int): (r: Step<ActorMovie>)
    requires IsFreshKey(table, newId)
    ensures r.outcome == Rejected(Duplicate) <==> PairTaken(table, link.actorId, link.movieId)
    ensures r.outcome == Rejected(Invalid) <==> !PairTaken(table, link.actorId, link.movieId) && !isValid
    ensures r.outcome != NotFound
    ensures r.outcome != Redirect ==> r.table == table
    ensures r.outcome == Redirect ==>
              && r.table.Keys == table.Keys + {newId}
              && (forall k :: k in table ==> r.table[k] == table[k])
              && r.table[newId] == ActorMovie(newId, link.actorId, link.movieId)
    ensures Valid(table) ==> Valid(r.table)
  {
    if PairTaken(table, link.actorId, link.movieId) then
      Step(Rejected(Duplicate), table)
    else if !isValid then
      Step(Rejected(Invalid), table)
    else
      Step(Redirect, table[newId := ActorMovie(newId, link.actorId, link.movieId)])
  }

  /** POST Edit of the link at path id `id`. The update is written under `WriteKey(id, newId)`:
      an unset id (0) makes it an insert under the fresh key `newId`; an update of any other
      id that is not (or no longer) in the table affects nothing and is answered NotFound. */
  function Edit(table: Table, id: int, link: ActorMovie, isValid: bool, newId: int): (r: Step<ActorMovie>)
    requires IsFreshKey(table, newId)
    ensures id != link.id ==> r == Step(NotFound, table)
    ensures r.outcome == Rejected(Duplicate) <==>
              id == link.id && PairTakenByOther(table, link.actorId, link.movieId, id)
    ensures r.outcome == Rejected(Invalid) <==>
              id == link.id && !PairTakenByOther(table, link.actorId, link.movieId, id) && !isValid
    ensures r.outcome == Redirect <==>
              id == link.id && !PairTakenByOther(table, link.actorId, link.movieId, id)
              && isValid && (id in table || id == UnsetKey)
    ensures (id == link.id && !PairTakenByOther(table, link.actorId, link.movieId, id)
             && isValid && id !in table && id != UnsetKey) ==> r == Step(NotFound, table)
    ensures r.outcome != Redirect ==> r.table == table
    ensures r.outcome == Redirect ==>
              var key := WriteKey(id, newId);
              && r.table.Keys == table.Keys + {key}
              && (forall k :: k in table && k != key ==> r.table[k] == table[k])
              && r.table[key] == ActorMovie(key, link.actorId, link.movieId)
    ensures r.outcome == Redirect && id != UnsetKey ==> r.table.Keys == table.Keys
    ensures Valid(table) ==> Valid(r.table)
  {
    if id != link.id then
      Step(NotFound, table)
    else if PairTakenByOther(table, link.actorId, link.movieId, id) then
      Step(Rejected(Duplicate), table)
    else if !isValid then
      Step(Rejected(Invalid), table)
    else if id != UnsetKey && id !in table then
      Step(NotFound, table)
    else
      var key := WriteKey(id, newId);
      Step(Redirect, table[key := ActorMovie(key, link.actorId, link.movieId)])
  }

  /** Saving a link with the pair it already has is not a duplicate of itself. */
  lemma EditKeepingPairSucceeds(table: Table, id: int, link: ActorMovie, newId: int)
    requires Valid(table) && IsFreshKey(table, newId)
    requires id in table && link.id == id
    requires link.actorId == table[id].actorId && link.movieId == table[id].movieId
    ensures Edit(table, id, link, true, newId) == Step(Redirect, table[id := link])
  {
  }

  /** Linking the same actor to the same movie twice: the second post is rejected as a
      duplicate and leaves the table as the first left it. */
  lemma CreateTwiceIsRejected(table: Table, link: ActorMovie, newId: int, link2: ActorMovie, newId2: int)
    requires IsFreshKey(table, newId)
    requires Create(table, link, true, newId).outcome == Redirect
    requires link2.actorId == link.actorId && link2.movieId == link.movieId
    requires IsFreshKey(Create(table, link, true, newId).table, newId2)
    ensures var after := Create(table, link, true, newId).table;
            Create(after, link2, true, newId2) == Step(Rejected(Duplicate), after)
  {
  }

  /** Deleting a link keeps the table well-formed and free of duplicate pairs. */
  lemma DeletePreservesValid(table: Table, id: int)
    requires Valid(table)
    ensures Valid(DeleteConfirmed(table, id).table)
  {
  }
}
