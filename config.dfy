/**
 * Configuration read from the environment by app.py: the connection URL with
 * the legacy `postgres://` scheme rewritten for the psycopg2 driver, and the
 * boolean reading of an environment variable.  The environment itself is a
 * parameter: `None` is an unset variable.
 */
module Config {
  import opened Wrappers
  import opened Text

  const LegacyScheme: string := "postgres://"
  const DriverScheme: string := "postgresql+psycopg2://"

  /**
   * `get_database_url`: a set, non-empty URL that starts with `postgres://` has
   * that first occurrence replaced by `postgresql+psycopg2://`; every other value,
   * including an unset one, is returned as it is.
   */
  function GetDatabaseUrl(env: Option<string>): (url: Option<string>)
    ensures env.None? ==> url.None?
    ensures env.Some? && StartsWith(env.value, LegacyScheme) ==>
      url == Some(DriverScheme + env.value[|LegacyScheme|..])
    ensures env.Some? && !StartsWith(env.value, LegacyScheme) ==> url == env
  {
    if env.Some? && env.value != "" && StartsWith(env.value, LegacyScheme) then
      ReplaceFirstAt(env.value, LegacyScheme, DriverScheme, 0);
      Some(ReplaceFirst(env.value, LegacyScheme, DriverScheme))
    else env
  }

  /**
   * The engine exists only for a set, non-empty URL (`... if DATABASE_URL else None`):
   * both an unset and an empty variable are false in Python.
   */
  predicate EngineConfigured(url: Option<string>): (b: bool)
    ensures url.None? ==> !b
    ensures url == Some("") ==> !b
    ensures url.Some? && url.value != "" ==> b
  {
    url.Some? && url.value != ""
  }

  /** Rewriting never turns a configured database into an unconfigured one, nor the reverse. */
  lemma RewriteKeepsConfigured(env: Option<string>)
    ensures EngineConfigured(GetDatabaseUrl(env)) <==> EngineConfigured(env)
  {
  }

  /**
   * The rewrite happens once: only the leading scheme is replaced, and whatever
   * follows it, a second `postgres://` included, is kept as it is.
   */
  lemma RewriteOnlyOnce(rest: string)
    ensures GetDatabaseUrl(Some(LegacyScheme + rest)) == Some(DriverScheme + rest)
  {
    var s := LegacyScheme + rest;
    assert s[..|LegacyScheme|] == LegacyScheme;
    assert s[|LegacyScheme|..] == rest;
  }

  /** The rewrite is idempotent: an already rewritten URL is left alone. */
  lemma RewriteIdempotent(env: Option<string>)
    ensures GetDatabaseUrl(GetDatabaseUrl(env)) == GetDatabaseUrl(env)
  {
    if env.Some? && StartsWith(env.value, LegacyScheme) {
      var u := DriverScheme + env.value[|LegacyScheme|..];
      assert u[8] == 'q' != LegacyScheme[8];
      assert !StartsWith(u, LegacyScheme);
    }
  }

  /** The values `_to_bool_env` reads as true. */
  const TruthyValues: set<string> := {"1", "true", "yes", "on"}

  /**
   * `_to_bool_env`: an unset variable gives `default`; a set one is true exactly
   * when its stripped value spells `1`, `true`, `yes` or `on` in any mix of upper
   * and lower case, and the default then plays no part.
   */
  function ToBoolEnv(value: Option<string>, default: bool := false): (b: bool)
    ensures value.None? ==> b == default
    ensures value.Some? ==> (b <==> exists w :: w in TruthyValues && SameWordIgnoringCase(Strip(value.value), w))
  {
    if value.None? then default
    else
      var t := Strip(value.value);
      LowerIsTruthy(t);
      Lower(t) in TruthyValues
  }

  /** Case-insensitive equality against a lower-case word, written out character by character. */
  predicate SameWordIgnoringCase(s: string, word: string) {
    |s| == |word| && forall i :: 0 <= i < |s| ==> LowerChar(s[i]) == word[i]
  }

  /** Lower-casing gives a truthy word exactly when the string spells one ignoring case. */
  lemma LowerIsTruthy(t: string)
    ensures Lower(t) in TruthyValues <==> exists w :: w in TruthyValues && SameWordIgnoringCase(t, w)
  {
    if Lower(t) in TruthyValues {
      assert SameWordIgnoringCase(t, Lower(t));
    } else {
      forall w | w in TruthyValues
        ensures !SameWordIgnoringCase(t, w)
      {
        assert SameWordIgnoringCase(t, w) ==> Lower(t) == w;
      }
    }
  }
}
