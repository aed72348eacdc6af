/** The Actor table and the POST actions of the actors controller. Unlike movies and
    links, actors carry no uniqueness rule beyond their id: two actors may share a name and
    an age. A stored photo is kept when an edit uploads no new one. */
module Actors {
  import opened Common

  /** A row of the Actor table. */
  datatype Actor = Actor(
    id: int,
    name: Option<string>,
    gender: Option<string>,
    age: int,
    imdbLink: Option<string>,
    photo: Option<Bytes>)

  /** The fields a create or edit form binds: every column but the photo. */
  datatype ActorForm = ActorForm(
    id: int,
    name: Option<string>,
    gender: Option<string>,
    age: int,
    imdbLink: Option<string>)

  type Table = map<int, Actor>

  /** The row a form describes, stored under `id` with the given photo. */
  function FromForm(form: ActorForm, id: int, photo: Option<Bytes>): Actor
  {
    Actor(id, form.name, form.gender, form.age, form.imdbLink, photo)
  }

  /** Every row is stored under its own id, which the database assigned; this is all the
      actor table promises. */
  predicate WellFormed(table: Table)
  {
    forall k :: k in table ==> IsAssignedKey(k) && table[k].id == k
  }

  /** POST Create. `newId` stands for the key the database assigns to an inserted row.
      There is no duplicate pre-check: only an invalid form is refused. */
  function Create(table: Table, form: ActorForm, photo: Upload, isValid: bool, newId: int): (r: Step<Actor>)
    requires IsFreshKey(table, newId)
    ensures r.outcome == Redirect <==> isValid
    ensures !isValid ==> r == Step(Rejected(Invalid), table)
    ensures r.outcome == Redirect ==>
              && r.table.Keys == table.Keys + {newId}
              && (forall k :: k in table ==> r.table[k] == table[k])
              && r.table[newId].id == newId
              && r.table[newId].name == form.name
              && r.table[newId].gender == form.gender
              && r.table[newId].age == form.age
              && r.table[newId].imdbLink == form.imdbLink
    ensures r.outcome == Redirect && HasContent(photo) ==> r.table[newId].photo == photo
    ensures r.outcome == Redirect && !HasContent(photo) ==> r.table[newId].photo == None
    ensures WellFormed(table) ==> WellFormed(r.table)
  {
    if isValid then
      Step(Redirect, table[newId := FromForm(form, newId, BlobAfter(photo, None))])
    else
      Step(Rejected(Invalid), table)
  }

  /** POST Edit of the actor at path id `id`. The update is written under `WriteKey(id, newId)`:
      an unset id (0) makes it an insert under the fresh key `newId`; an update of any other
      id that is not (or no longer) in the table affects nothing and is answered NotFound. */
  function Edit(table: Table, id: int, form: ActorForm, photo: Upload, isValid: bool, newId: int): (r: Step<Actor>)
    requires IsFreshKey(table, newId)
    ensures id != form.id ==> r == Step(NotFound, table)
    ensures r.outcome == Rejected(Invalid) <==> id == form.id && !isValid
    ensures r.outcome == Redirect <==> id == form.id && isValid && (id in table || id == UnsetKey)
    ensures r.outcome != Rejected(Duplicate)
    ensures (id == form.id && isValid && id !in table && id != UnsetKey) ==> r == Step(NotFound, table)
    ensures r.outcome != Redirect ==> r.table == table
    ensures r.outcome == Redirect ==>
              var key := WriteKey(id, newId);
              && r.table.Keys == table.Keys + {key}
              && (forall k :: k in table && k != key ==> r.table[k] == table[k])
              && r.table[key].id == key
              && r.table[key].name == form.name
              && r.table[key].gender == form.gender
              && r.table[key].age == form.age
              && r.table[key].imdbLink == form.imdbLink
    ensures r.outcome == Redirect && id != UnsetKey ==> r.table.Keys == table.Keys
    ensures r.outcome == Redirect && HasContent(photo) ==> r.table[WriteKey(id, newId)].photo == photo
    ensures r.outcome == Redirect && !HasContent(photo) ==>
              r.table[WriteKey(id, newId)].photo == (if id in table then table[id].photo else None)
    ensures WellFormed(table) ==> WellFormed(r.table)
  {
    if id != form.id then
      Step(NotFound, table)
    else if !isValid then
      Step(Rejected(Invalid), table)
    else
      var kept := if id in table then table[id].photo else None;
      if id != UnsetKey && id !in table then
        Step(NotFound, table)
      else
        var key := WriteKey(id, newId);
        Step(Redirect, table[key := FromForm(form, key, BlobAfter(photo, kept))])
  }

  /** Posting the same valid actor twice stores two rows with the same name and age: the
      actor table has no (name, age) uniqueness rule. */
  lemma CreateAllowsSameNameAndAge(table: Table, form: ActorForm, photo: Upload, newId: int,
                                   newId2: int)
    requires IsFreshKey(table, newId) && IsFreshKey(table, newId2) && newId2 != newId
    ensures var first := Create(table, form, photo, true, newId);
            var second := Create(first.table, form, photo, true, newId2);
            && first.outcome == Redirect && second.outcome == Redirect
            && newId in second.table && newId2 in second.table
            && second.table[newId].name == second.table[newId2].name
            && second.table[newId].age == second.table[newId2].age
  {
  }

  /** Editing without uploading a photo, right after creating the actor with one, still shows
      the photo given at creation. */
  lemma EditWithoutUploadKeepsCreatedPhoto(table: Table, form: ActorForm, photo: Upload, newId: int,
                                           edit: ActorForm, none: Upload, freeId: int)
    requires IsFreshKey(table, newId) && HasContent(photo)
    requires edit.id == newId && !HasContent(none)
    requires IsFreshKey(Create(table, form, photo, true, newId).table, freeId)
    ensures var created := Create(table, form, photo, true, newId).table;
            var edited := Edit(created, newId, edit, none, true, freeId);
            edited.outcome == Redirect && edited.table[newId].photo == photo
  {
  }

  /** Deleting a row keeps every other row under its own id. */
  lemma DeletePreservesWellFormed(table: Table, id: int)
    requires WellFormed(table)
    ensures WellFormed(DeleteConfirmed(table, id).table)
  {
  }
}
