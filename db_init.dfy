/**
 * The one-shot bootstrap script db_init.py: rewrite the URL as app.py does,
 * create the table if it is missing, and insert the two sample rows only into
 * an empty table, all in one transaction.
 */
module DbInit {
  import opened Wrappers
  import opened Text
  import opened Config
  import opened Store

  /**
   * Runs the script against the database `db` names.  An unset or empty URL makes
   * `create_engine` fail before anything is executed (`ok` is false).
   */
  method Bootstrap(env: Option<string>, db: RecipeStore) returns (url: Option<string>, ok: bool)
    requires db.Valid()
    modifies db
    ensures url == GetDatabaseUrl(env)
    ensures ok <==> EngineConfigured(url)
    ensures db.Valid() && db.clock == old(db.clock)
    ensures !ok ==> db.tableExists == old(db.tableExists) && db.rows == old(db.rows) && db.nextId == old(db.nextId)
    ensures ok ==> db.tableExists && db.rows == Seeded(old(db.rows), old(db.nextId), db.clock)
    ensures ok ==> db.nextId == if |old(db.rows)| == 0 then old(db.nextId) + 2 else old(db.nextId)
  {
    url := env;
    if url.Some? && url.value != "" && StartsWith(url.value, LegacyScheme) {
      url := Some(ReplaceFirst(url.value, LegacyScheme, DriverScheme));
    }
    ok := url.Some? && url.value != "";
    if !ok {
      return;
    }
    db.EnsureTable();
    var seeded := db.SeedIfEmpty();
  }

  /**
   * Running the script a second time leaves the rows as the first run left them:
   * the count it reads is no longer zero.
   */
  method BootstrapTwice(env: Option<string>, db: RecipeStore) returns (ok: bool)
    requires db.Valid()
    modifies db
    ensures db.Valid()
    ensures ok ==> db.tableExists && db.rows == Seeded(old(db.rows), old(db.nextId), db.clock)
    ensures !ok ==> db.rows == old(db.rows)
  {
    var url, first := Bootstrap(env, db);
    var url2, second := Bootstrap(env, db);
    SeedingIdempotent(old(db.rows), old(db.nextId), db.clock, db.nextId, db.clock);
    ok := first;
  }
}
