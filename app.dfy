/** The module-level state of the front end and the handlers that change
    it: the `services` array, the edit cursor `editingServiceId` and the
    flag `isAdmin`, with the service form submit, the edit, delete and
    cancel buttons, logout, and the login check. */
module App {
  import opened Search
  import opened Catalog
  import opened Session

  /** What a submit of the service form did. */
  datatype SubmitOutcome =
    | Created(id: int)       // a record was appended under this id
    | Updated(index: nat)    // the record at this position was replaced
    | StaleCursor            // the cursor named no record: nothing was written
    | NoValidId              // create on an empty catalog: Math.max() is -Infinity

  /** Create mode is when the cursor is falsy: null, or the id 0. */
  predicate IsEditMode(cursor: Option<int>): (b: bool)
    ensures !b <==> cursor == None || cursor == Some(0)
  {
    cursor.Some? && cursor.value != 0
  }

  class AppState {
    var services: seq<Service>
    var editingServiceId: Option<int>
    var isAdmin: bool

    /** The initial values of the three globals. */
    constructor ()
      ensures services == [] && editingServiceId == None && !isAdmin
    {
      services := [];
      editingServiceId := None;
      isAdmin := false;
    }

    /** The load at startup: `data.services || []`, and the empty catalog
        when the fetch or the parse failed (modelled as None). */
    method LoadDefaultData(loaded: Option<seq<Service>>)
      modifies this`services
      ensures services == match loaded case Some(s) => s case None => []
    {
      services := match loaded case Some(s) => s case None => [];
    }

    /** The service form submit. With a truthy cursor it replaces the first
        record carrying the cursor's id by the draft under that id, or does
        nothing when no record carries it, and clears the cursor. Otherwise
        it appends the draft under the id one past the largest, leaving the
        cursor as it was; on an empty catalog there is no such id. */
    method SubmitService(draft: Draft) returns (outcome: SubmitOutcome)
      modifies this`services, this`editingServiceId
      ensures IsEditMode(old(editingServiceId)) ==>
                editingServiceId == None &&
                var c := old(editingServiceId).value;
                if HasId(old(services), c) then
                  outcome == Updated(IndexOfId(old(services), c)) &&
                  services == old(services)[outcome.index := WithId(draft, c)]
                else
                  outcome == StaleCursor && services == old(services)
      ensures !IsEditMode(old(editingServiceId)) ==>
                editingServiceId == old(editingServiceId) &&
                if |old(services)| == 0 then
                  outcome == NoValidId && services == old(services)
                else
                  outcome == Created(NextId(old(services)).value) &&
                  services == old(services) + [WithId(draft, outcome.id)]
      ensures outcome.Created? ==> !HasId(old(services), outcome.id)
      ensures outcome.Updated? ==> old(services)[outcome.index].id == services[outcome.index].id
      ensures UniqueIds(old(services)) ==> UniqueIds(services)
    {
      if IsEditMode(editingServiceId) {
        var c := editingServiceId.value;
        var index := IndexOfId(services, c);
        if index >= 0 {
          ReplaceKeepsIds(services, index, WithId(draft, c));
          services := services[index := WithId(draft, c)];
          outcome := Updated(index);
        } else {
          outcome := StaleCursor;
        }
        editingServiceId := None;
      } else {
        match NextId(services)
        case None =>
          outcome := NoValidId;
        case Some(newId) =>
          CreateAppendsFresh(services, draft);
          services := services + [WithId(draft, newId)];
          outcome := Created(newId);
      }
    }

    /** The edit button: the cursor moves to `id` when a record carries it,
        and otherwise nothing changes. */
    method EditService(id: int)
      modifies this`editingServiceId
      ensures editingServiceId == if HasId(services, id) then Some(id) else old(editingServiceId)
    {
      var service := FindById(services, id);
      if service.Some? {
        editingServiceId := Some(id);
      }
    }

    /** The delete button: after confirmation every record with the id is
        filtered out; the cursor is left alone, even when it names `id`. */
    method DeleteService(id: int, confirmed: bool)
      modifies this`services
      ensures services == if confirmed then Without(old(services), id) else old(services)
      ensures confirmed ==> !HasId(services, id)
      ensures editingServiceId == old(editingServiceId)
      ensures UniqueIds(old(services)) ==> UniqueIds(services)
    {
      if confirmed {
        DeleteProperties(services, id);
        services := Without(services, id);
      }
    }

    /** The cancel button of the service form. */
    method CancelEdit()
      modifies this`editingServiceId
      ensures editingServiceId == None
    {
      editingServiceId := None;
    }

    /** Logout resets the cursor. It does not touch `isAdmin`. */
    method Logout()
      modifies this`editingServiceId
      ensures editingServiceId == None
      ensures isAdmin == old(isAdmin) && services == old(services)
    {
      editingServiceId := None;
    }

    /** The login check against the loaded user list: on a match the flag
        becomes whether the first matching user is an administrator; on a
        mismatch it keeps its value. */
    method Login(users: seq<User>, username: string, password: string) returns (ok: bool)
      modifies this`isAdmin
      ensures ok <==> Authenticate(users, username, password).Some?
      ensures isAdmin == AdminAfterLogin(users, username, password, old(isAdmin))
    {
      var user := Authenticate(users, username, password);
      ok := user.Some?;
      if ok {
        isAdmin := user.value.role == AdministratorRole;
      }
    }
  }

  /** Editing a record, deleting it before submitting, then submitting
      the form: the submit finds no record, writes nothing, does not bring
      the id back, and clears the cursor. */
  method StaleEditScenario(catalog: seq<Service>, id: int, draft: Draft)
    returns (outcome: SubmitOutcome, after: seq<Service>, cursor: Option<int>)
    requires HasId(catalog, id) && id != 0
    ensures outcome == StaleCursor && cursor == None
    ensures after == Without(catalog, id) && !HasId(after, id)
  {
    var app := new AppState();
    app.LoadDefaultData(Some(catalog));
    app.EditService(id);
    app.DeleteService(id, true);
    outcome := app.SubmitService(draft);
    after, cursor := app.services, app.editingServiceId;
  }

  /** Editing a record whose id is 0 then submitting: the cursor is falsy,
      so the submit appends a new record instead of replacing it, and the
      cursor stays set. */
  method ZeroIdEditScenario(catalog: seq<Service>, draft: Draft)
    returns (outcome: SubmitOutcome, after: seq<Service>, cursor: Option<int>)
    requires HasId(catalog, 0)
    ensures outcome.Created? && outcome.id > 0 && cursor == Some(0)
    ensures after == catalog + [WithId(draft, outcome.id)]
  {
    var app := new AppState();
    app.LoadDefaultData(Some(catalog));
    app.EditService(0);
    outcome := app.SubmitService(draft);
    after, cursor := app.services, app.editingServiceId;
  }
}
