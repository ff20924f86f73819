/**
 * The request handlers of app.py over the store.  The engine is the store
 * itself: `null` when no database URL is configured.  HTTP routing, templates
 * and redirects are reduced to the `Response` each handler produces.
 */
module App {
  import opened Wrappers
  import opened Text
  import opened Config
  import opened Store
  import opened Validation

  /**
   * What a handler answers: a redirect to `/`, the index page with its template
   * variables, or the server error an exception escaping the handler becomes
   * (the session rolls back, so the store is left as it was).
   */
  datatype Response =
    | Redirect
    | Render(errors: seq<CreateError>, recipes: seq<Recipe>, dbReady: bool, form: FormValues)
    | ServerError

  /** The listing shown on the index page: empty without a database. */
  function Recipes(store: RecipeStore?): (recipes: seq<Recipe>)
    reads store
    requires store != null ==> store.Valid()
  {
    if store == null then [] else store.List()
  }

  /**
   * Module start-up: the engine exists only for a configured URL, and then
   * `create_all` creates the table if it is missing.
   */
  method Startup(env: Option<string>, db: RecipeStore) returns (store: RecipeStore?)
    requires db.Valid()
    modifies db
    ensures db.Valid()
    ensures EngineConfigured(GetDatabaseUrl(env)) ==> store == db && db.tableExists && db.rows == old(db.rows)
    ensures !EngineConfigured(GetDatabaseUrl(env)) ==> store == null && db.tableExists == old(db.tableExists)
    ensures db.rows == old(db.rows) && db.nextId == old(db.nextId) && db.clock == old(db.clock)
  {
    var url := GetDatabaseUrl(env);
    if url.Some? && url.value != "" {
      store := db;
      store.EnsureTable();
    } else {
      store := null;
    }
  }

  /** `GET /`: the listing, no errors, an empty form. */
  method IndexGet(store: RecipeStore?) returns (resp: Response)
    requires store != null ==> store.Valid() && store.tableExists
    ensures resp.Render? && resp.errors == [] && resp.form == FormValues("", "", "")
    ensures resp.dbReady <==> store != null
    ensures resp.recipes == Recipes(store)
    ensures SortedDesc(resp.recipes) && forall r :: r in resp.recipes ==> Storable(r.minutes)
  {
    var recipes: seq<Recipe> := [];
    if store != null {
      recipes := store.List();
    }
    resp := Render([], recipes, store != null, FormValues("", "", ""));
  }

  /**
   * The part of `POST /` after validation: with no error, insert the record and
   * redirect, or fail with a server error when the minutes do not fit the
   * `INTEGER` column; otherwise re-render the page with the errors and the form.
   */
  method Submit(store: RecipeStore?, errors: seq<CreateError>, form: FormValues, minutes: Option<int>)
    returns (resp: Response)
    requires store != null ==> store.Valid() && store.tableExists
    requires errors == [] ==> store != null && minutes.Some? && minutes.value >= 1
    modifies store
    ensures store != null ==> store.Valid() && store.tableExists && store.clock == old(store.clock)
    ensures errors == [] && minutes.value > MaxInt32 ==>
      && resp == ServerError
      && store.rows == old(store.rows) && store.nextId == old(store.nextId)
    ensures errors == [] && minutes.value <= MaxInt32 ==>
      && resp == Redirect
      && old(store.nextId) !in old(store.rows)
      && store.nextId == old(store.nextId) + 1
      && store.rows == old(store.rows)[old(store.nextId) :=
           Recipe(old(store.nextId), form.title, minutes.value, form.description, store.clock)]
      && |store.rows| == |old(store.rows)| + 1
      && store.List()[0] == store.rows[old(store.nextId)]
    ensures errors != [] ==>
      && resp == Render(errors, Recipes(store), store != null, form)
      && (store != null ==> store.rows == old(store.rows) && store.nextId == old(store.nextId))
  {
    if errors == [] {
      var id := store.Insert(form.title, minutes.value, form.description);
      if id.None? {
        return ServerError;
      }
      return Redirect;
    }
    var recipes: seq<Recipe> := [];
    if store != null {
      recipes := store.List();
    }
    resp := Render(errors, recipes, store != null, form);
  }

  /**
   * `POST /`: strip and validate the fields, then insert and redirect, or
   * re-render the page with the errors and the stripped input.
   */
  method IndexPost(store: RecipeStore?, title: string, minutesRaw: string, description: string)
    returns (resp: Response)
    requires store != null ==> store.Valid() && store.tableExists
    modifies store
    ensures store != null ==> store.Valid() && store.tableExists && store.clock == old(store.clock)
    ensures
      var form := StrippedForm(title, minutesRaw, description);
      var errors := CreateErrors(form, store != null);
      && (errors == [] ==> store != null && ParseInt(form.minutes).Some?)
      && (errors == [] && ParseInt(form.minutes).value > MaxInt32 ==>
            && resp == ServerError
            && store.rows == old(store.rows) && store.nextId == old(store.nextId))
      && (errors == [] && ParseInt(form.minutes).value <= MaxInt32 ==>
            && resp == Redirect
            && old(store.nextId) !in old(store.rows)
            && store.nextId == old(store.nextId) + 1
            && store.rows == old(store.rows)[old(store.nextId) :=
                 Recipe(old(store.nextId), form.title, ParseInt(form.minutes).value, form.description, store.clock)]
            && |store.rows| == |old(store.rows)| + 1
            && store.List()[0] == store.rows[old(store.nextId)])
      && (errors != [] ==>
            && resp == Render(errors, Recipes(store), store != null, form)
            && (store != null ==> store.rows == old(store.rows) && store.nextId == old(store.nextId)))
  {
    var errors, form, minutes := ValidateCreate(title, minutesRaw, description, store != null);
    resp := Submit(store, errors, form, minutes);
  }

  /**
   * The part of `update_recipe` after the fields are stripped: parse the
   * minutes, redirect on a parse failure or a value below 1, otherwise update
   * the row if it exists; a commit the database refuses is a server error.
   */
  method UpdateStripped(store: RecipeStore, id: int, title: string, minutesRaw: string, description: string)
    returns (resp: Response)
    requires store.Valid() && store.tableExists
    modifies store
    ensures store.Valid() && store.tableExists && store.nextId == old(store.nextId) && store.clock == old(store.clock)
    ensures
      var minutes := ParseInt(minutesRaw);
      && (resp == ServerError <==> minutes.Some? && minutes.value > MaxInt32 && id in old(store.rows))
      && (resp != ServerError ==> resp == Redirect)
      && if minutes.Some? && Storable(minutes.value) && id in old(store.rows) then
           store.rows == old(store.rows)[id := old(store.rows)[id].(
             title := title, minutes := minutes.value, description := description)]
         else store.rows == old(store.rows)
  {
    var minutes := ParseInt(minutesRaw);
    if minutes.None? {
      return Redirect;
    }
    if minutes.value < 1 {
      return Redirect;
    }
    var outcome := store.Update(id, title, minutes.value, description);
    resp := if outcome == Refused then ServerError else Redirect;
  }

  /**
   * `POST /update/<id>`: with a database, integer minutes of at least 1 and an
   * existing id, overwrite title, minutes and description (an empty title is
   * accepted) and redirect, or fail with a server error when the minutes do not
   * fit the `INTEGER` column; in every other case change nothing and redirect.
   */
  method UpdateRecipe(store: RecipeStore?, id: int, title: string, minutesRaw: string, description: string)
    returns (resp: Response)
    requires store != null ==> store.Valid() && store.tableExists
    modifies store
    ensures store == null ==> resp == Redirect
    ensures store != null ==>
      (store.Valid() && store.tableExists && store.nextId == old(store.nextId) && store.clock == old(store.clock))
    ensures store != null ==>
      var minutes := ParseInt(Strip(minutesRaw));
      && (resp == ServerError <==> minutes.Some? && minutes.value > MaxInt32 && id in old(store.rows))
      && (resp != ServerError ==> resp == Redirect)
      && if minutes.Some? && Storable(minutes.value) && id in old(store.rows) then
           store.rows == old(store.rows)[id := old(store.rows)[id].(
             title := Strip(title), minutes := minutes.value, description := Strip(description))]
         else store.rows == old(store.rows)
  {
    if store == null {
      return Redirect;
    }
    var t, m, d := Strip(title), Strip(minutesRaw), Strip(description);
    resp := UpdateStripped(store, id, t, m, d);
  }

  /** `POST /delete/<id>`: with a database, remove the record if it exists.  Always redirects. */
  method DeleteRecipe(store: RecipeStore?, id: int) returns (resp: Response)
    requires store != null ==> store.Valid() && store.tableExists
    modifies store
    ensures resp == Redirect
    ensures store != null ==>
      (store.Valid() && store.tableExists && store.nextId == old(store.nextId) && store.clock == old(store.clock)
       && store.rows == old(store.rows) - {id})
  {
    if store == null {
      return Redirect;
    }
    var deleted := store.Delete(id);
    resp := Redirect;
  }
}
