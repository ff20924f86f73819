# Recipe store — a Dafny model

This project models the rules under a small recipe web application. Users list,
create, edit and delete recipes; each recipe has a title, preparation minutes and
a description. The application is `app.py`, built on Flask and SQLAlchemy. A
one-shot script, `db_init.py`, creates the `recipes` table and inserts two sample
rows.

The model covers:

- **Configuration.** The `DATABASE_URL` rewrite from `postgres://` to
  `postgresql+psycopg2://` (`Config.GetDatabaseUrl`). The engine exists only for a
  set, non-empty URL (`Config.EngineConfigured`). `_to_bool_env` is
  `Config.ToBoolEnv`.
- **Create-form validation.** The three fields are stripped and the minutes
  parsed. Every applicable error is collected in the fixed order
  integer / at-least-one / title / database, with no short-circuit
  (`Validation`).
- **The `recipes` table.** The database is PostgreSQL, as the psycopg2 driver
  scheme and db_init.py's `SERIAL` and `TIMESTAMPTZ` columns show; what the store
  accepts and refuses is PostgreSQL's. `Store.RecipeStore` is a class with these fields:
  - the rows, a `map<int, Recipe>` keyed by id;
  - the next value of the serial id sequence;
  - whether the table exists;
  - a clock that stands in for `now()`.

  Its methods are the inserts, updates, deletes and counts that the handlers and
  the bootstrap script run. `Valid()` is the schema: ids come from the sequence,
  every `minutes` value fits the `INTEGER` column and meets the check constraint
  `minutes >= 1` (`Store.Storable`), and no row has a timestamp ahead of the clock.
  While the table does not exist, its id sequence does not either, so the first
  id is 1. A write the database refuses stores nothing. The listing
  `ORDER BY created_at DESC, id DESC` is the function `Store.Listing`.
- **Handlers.** `index` (GET and POST), `update_recipe` and `delete_recipe` are
  methods of `App`. They take the store, or `null` when no engine is configured.
  They return a `Response`: `Redirect`, `Render` with the template variables, or
  `ServerError` when a commit raises (a `minutes` value beyond the `INTEGER`
  range passes the handlers' own checks but not the database's).
- **Bootstrap.** `DbInit.Bootstrap` covers `CREATE TABLE IF NOT EXISTS`, then the
  count, then the two-row seed only when the count is 0.

Strings are `seq<char>`. `strip()` removes the ASCII characters Python counts as
whitespace: space, `\t`, `\n`, `\x0b`, `\x0c`, `\r` and `\x1c` to `\x1f`.
`lower()` acts on ASCII letters. `int()` is modelled as an optional `+`/`-`
followed by one to 4300 ASCII digits (`Text.ParseInt`). 4300 is CPython's default
limit on integer string conversion; a longer string raises `ValueError` like any
other bad input. The environment, the clock and the database are
parameters or fields, never read from outside.

The create form rejects a title that strips to nothing (app.py:76-77). The schema
accepts one, since `NOT NULL` is its only rule on the title (app.py:35,
db_init.py:15), and so does `update_recipe` (app.py:113, 128). The model follows
the code: an update with a blank title stores an empty title.

## Model

| member | source | states |
|---|---|---|
| `Config.GetDatabaseUrl` | app.py:16-20 | an unset URL stays unset; a URL starting with `postgres://` becomes `postgresql+psycopg2://` followed by the rest; any other URL is returned unchanged |
| `Config.RewriteOnlyOnce` | app.py:19 | for every rest of the URL, `postgres://` followed by it becomes `postgresql+psycopg2://` followed by the same rest, so a later `postgres://` is kept |
| `Config.RewriteIdempotent` | app.py:16-20 | rewriting an already rewritten URL changes nothing |
| `Config.EngineConfigured` | app.py:23 | an unset URL and an empty URL both leave the engine `None`; any other URL creates it |
| `Config.RewriteKeepsConfigured` | app.py:22-23 | the engine is configured after the rewrite exactly when it was configured before |
| `Config.ToBoolEnv` | app.py:47-50 | `default` is `False` unless given; an unset value gives `default`; a set value is true exactly when, once stripped, it spells `1`, `true`, `yes` or `on` in any case, whatever the default |
| `Text.Strip` | app.py:59-61 | the result is a slice of the input with only whitespace before and after it, has no surrounding whitespace itself, and is empty exactly when the input is all whitespace |
| `Text.TrimLeft` | app.py:59-61 | the result is the suffix of the input left after its leading whitespace |
| `Text.TrimRight` | app.py:59-61 | the result is the prefix of the input left before its trailing whitespace |
| `Text.StripIdempotent` | app.py:59-61 | stripping twice is the same as stripping once |
| `Text.Lower` | app.py:50 | lower-casing keeps the length and lower-cases each ASCII letter in place |
| `Text.ReplaceFirst` | app.py:19 | `replace(old, new, 1)` either leaves the string as it is or replaces exactly one occurrence, changing the length by `len(new) - len(old)` |
| `Text.ReplaceFirstAt` | app.py:19 | `replace(old, new, 1)` puts `new` at the first occurrence of `old` and keeps everything else |
| `Text.ReplaceFirstNoOccurrence` | app.py:19 | a general property of `replace(old, new, 1)`: with no occurrence of `old` the string is returned unchanged (the URL rewrite itself only calls it after `startswith`) |
| `Text.ParseInt` | app.py:67-71 | `int()` succeeds exactly on an optional sign followed by one to 4300 digits; otherwise it is the `ValueError` branch |
| `Text.ParseIntRoundTrip` | app.py:69 | every integer whose decimal form has at most 4300 digits parses back to itself |
| `Text.LongDigitsRejected` | app.py:68-71 | a digit string longer than 4300 digits, signed or not, is refused, which is the "not an integer" error on create and a plain redirect on update |
| `Text.DigitsRoundTrip` | app.py:69 | the digits of a natural number evaluate back to that number |
| `Validation.Message` | app.py:71-80 | every error has a non-empty message |
| `Validation.MessagesDistinct` | app.py:71-80 | no two errors share a message |
| `Validation.StrippedForm` | app.py:59-65 | the echoed form values are the stripped fields; the title is empty exactly when the submitted title is all whitespace |
| `Validation.CreateErrors` | app.py:67-80 | an error is reported exactly when it applies, and the errors come strictly in the order integer, at-least-one, title, database |
| `Validation.ReportOrderUnique` | app.py:67-80 | two error lists in report order with the same members are equal, so the applicable errors fix the list |
| `Validation.MinutesErrorsExclusive` | app.py:67-74 | the "not an integer" and "at least 1" errors are never reported together |
| `Validation.BlankTitleAlwaysReported` | app.py:76-77 | a title that strips to nothing is always reported, whatever the minutes are |
| `Validation.NoErrorsIffAcceptable` | app.py:82 | there are no errors exactly when the minutes parse to an integer of at least 1, the title is non-empty and a database is configured |
| `Validation.AllButOneErrorExample` | app.py:67-80 | a blank title with minutes `abc` and no database gives the three errors integer, title, database, in that order |
| `Validation.CollectErrors` | app.py:67-80 | appending each check's error in turn yields exactly `CreateErrors`; an empty list means minutes of at least 1, a title and a database |
| `Validation.ValidateCreate` | app.py:55-80 | the form is echoed stripped, the minutes are the parse of the stripped field, and the errors are `CreateErrors` of the stripped form |
| `Store.Listing` | app.py:92-94 | the listing is strictly ordered by `created_at` descending, then `id` descending, and holds exactly the stored rows |
| `Store.SortedUnique` | app.py:92-94 | two strictly ordered sequences of the same records are equal, so the sort key fixes the listing |
| `Store.NewestListedFirst` | app.py:92-94 | a record that comes before every other record in the sort order is listed first |
| `Store.ListingAfterInsert` | app.py:82-94 | a record inserted with the next serial id and the current clock is listed first |
| `Store.ListingAfterEdit` | app.py:125-131 | after an edit that keeps id and `created_at`, every record keeps its position in the listing |
| `Store.SeedRows` | db_init.py:35-45 | the two seed rows take consecutive ids, share one `now()`, and both satisfy `minutes >= 1` |
| `Store.Seeded` | db_init.py:33-45 | a non-empty table is left as it is; an empty one gets exactly two rows, with the next two ids, storable minutes and the same `now()` |
| `Store.SeedingIdempotent` | db_init.py:33-34 | seeding again after seeding changes nothing |
| `Store.RecipeStore.List` | app.py:89-94 | the listing is sorted, holds exactly the stored rows, and every listed record has minutes that fit `INTEGER` and are at least 1 |
| `Store.RecipeStore.AdvanceClock` | app.py:38-40 | time moves forward; the rows are untouched |
| `Store.RecipeStore.EnsureTable` | db_init.py:12-31 | after `CREATE TABLE IF NOT EXISTS` the table exists and existing rows are preserved |
| `Store.RecipeStore.Insert` | app.py:28-40 | a storable row gets the next serial id and the clock as `created_at`, and the table grows by exactly that row, which is listed first; a value outside `INTEGER` or below 1 is refused and nothing is stored; only the check-constraint failure spends the id |
| `Store.RecipeStore.Update` | app.py:125-131 | an absent id is reported missing; an existing id with a value that is not storable is refused; otherwise exactly its title, minutes and description are overwritten; a missing or refused write changes nothing |
| `Store.RecipeStore.Delete` | app.py:142-146 | exactly the row with that id is removed if present; an absent id changes nothing |
| `Store.RecipeStore.SeedIfEmpty` | db_init.py:33-45 | the rows become `Seeded` of the old rows: two new rows when the count was 0, unchanged otherwise |
| `App.Startup` | app.py:22-43 | the engine exists exactly for a configured URL, and then the table exists with its rows unchanged; without an engine the database is untouched |
| `App.IndexGet` | app.py:89-104 | a GET renders the sorted listing, or nothing without a database, with no errors and an empty form |
| `App.Submit` | app.py:82-104 | with no errors a storable record is added under the next id, listed first, and the answer is a redirect; minutes beyond `INTEGER` give a server error and no change; with errors the page is re-rendered and the store is unchanged |
| `App.IndexPost` | app.py:53-104 | with no errors and minutes that fit `INTEGER`, one record with the stripped title and description and the parsed minutes is added under the next id, listed first, and the answer is a redirect; larger minutes give a server error and change nothing; with errors the store is unchanged and the page is re-rendered with the errors and the stripped input |
| `App.UpdateStripped` | app.py:117-133 | minutes that fail to parse or are below 1, or an absent id, change nothing and redirect; minutes beyond `INTEGER` on an existing id give a server error and change nothing; otherwise exactly that record's title, minutes and description are overwritten and the answer is a redirect |
| `App.UpdateRecipe` | app.py:108-133 | with a database, integer minutes of at least 1 that fit `INTEGER` and an existing id, exactly that record's title, minutes and description change, even to an empty title; larger minutes on an existing id give a server error; every other case changes nothing and redirects |
| `App.DeleteRecipe` | app.py:137-148 | with a database the row with that id is removed if present and nothing else changes; the answer is always a redirect |
| `DbInit.Bootstrap` | db_init.py:5-45 | the URL is rewritten as in app.py; with no usable URL nothing happens; otherwise the table exists, the rows are the seeded old rows, and the sequence advanced by two exactly when the table was empty |
| `DbInit.BootstrapTwice` | db_init.py:33-34 | running the script twice leaves the rows as one run leaves them |

## Left out

- HTTP routing, `request.form`, `render_template`, `url_for`, `app.run`, and the constant template variables `debug` and `port`: presentation plumbing. A handler's answer is the `Response` value.
- Reading the environment and `load_dotenv`: the URL value is a parameter. The final `print` of db_init.py is output only.
- SQLAlchemy engines, sessions, commits, `pool_pre_ping` and connection failures: the store object stands for a reachable database. Transactions are not modelled, and neither is concurrency between requests.
- A form field that is missing from the request becomes `""` (`or ""`). The handlers take the field values as strings, so that mapping is the caller's.
- Python `int()` also accepts surrounding whitespace, `_` between digits and non-ASCII digits. The digit limit can be changed at run time (`sys.set_int_max_str_digits`); the model uses the default. `strip()` and `lower()` also act on non-ASCII characters, such as `\x85` and `\xa0`. The model uses ASCII only.
- `VARCHAR(200)` on the title is enforced by the database, not by the code, and is not modelled.
- `created_at` is a natural-number clock, not a time-zone-aware timestamp. The model claims "newest first" only as far as the sort key and a clock that never runs backwards give it.
- `description` may be NULL in the schema. Both writers always supply a string, so the model uses `string`.
- Store.RecipeStore.Insert: text that PostgreSQL or psycopg2 refuses, such as a title or description containing U+0000, makes the commit raise (a server error, nothing stored). The model treats every string as storable, so `App.IndexPost` and `App.Submit` answer a redirect there.
- Store.RecipeStore.Update: the same for an update with such text. `App.UpdateStripped` and `App.UpdateRecipe` answer a redirect and overwrite the row there.
- Other database backends the URL may name are not modelled. SQLite, for instance, stores a `minutes` value beyond `INTEGER`.
- The serial `id` is an `INTEGER` too; running out of sequence values after 2147483647 inserts is not modelled.
- The text of the database error behind `ServerError` and Flask's error page are not modelled; the answer only says that the request failed and the store was rolled back.
- DbInit.Bootstrap: a URL that is set but unreachable or malformed fails in the driver. The model only covers the unset or empty URL that `create_engine` rejects.
