/**
 * Application settings and the database URL choice (app/core/config.py).
 *
 * Loading values from the environment or a `.env` file and the cached
 * settings object are not modelled: a `Settings` value is given.
 */
module Config {
  import opened Wrappers

  datatype ValueError = ValueError(message: string)

  datatype Settings = Settings(
    appName: string := "FastAPI Project",
    debug: bool := false,
    apiV1Str: string := "/api/v1",
    databaseType: string := "sqlite",
    databaseUrl: Option<string> := None,
    databaseConnectArgs: map<string, bool> := map[],
    environment: string := "development")

  const DefaultSqliteUrl: string := "sqlite:///./sql_app.db"

  /** Python truthiness of an optional string: present and non-empty. */
  predicate IsSet(url: Option<string>) {
    url.Some? && url.value != ""
  }

  /**
   * `sqlalchemy_database_url`: SQLite falls back to a local file when no URL
   * is set, PostgreSQL demands one, and any other type is refused.
   */
  function SqlalchemyDatabaseUrl(s: Settings): (r: Result<string, ValueError>)
    ensures r.Ok? <==> s.databaseType == "sqlite" || (s.databaseType == "postgresql" && IsSet(s.databaseUrl))
    ensures r.Ok? ==> r.value == if IsSet(s.databaseUrl) then s.databaseUrl.value else DefaultSqliteUrl
    ensures r.Ok? ==> r.value != ""
    ensures r.Err? && s.databaseType == "postgresql" ==> r.error == ValueError("DATABASE_URL must be set for PostgreSQL")
    ensures r.Err? && s.databaseType != "postgresql" ==> r.error == ValueError("Unsupported database type: " + s.databaseType)
  {
    if s.databaseType == "sqlite" then
      Ok(if IsSet(s.databaseUrl) then s.databaseUrl.value else DefaultSqliteUrl)
    else if s.databaseType == "postgresql" then
      if !IsSet(s.databaseUrl) then Err(ValueError("DATABASE_URL must be set for PostgreSQL"))
      else Ok(s.databaseUrl.value)
    else
      Err(ValueError("Unsupported database type: " + s.databaseType))
  }

  /** `database_connect_args`: SQLite connections may be shared across threads; other databases get no arguments. */
  function DatabaseConnectArgs(s: Settings): (args: map<string, bool>)
    ensures args.Keys <= {"check_same_thread"}
    ensures "check_same_thread" in args <==> s.databaseType == "sqlite"
    ensures forall k :: k in args ==> !args[k]
  {
    if s.databaseType == "sqlite" then map["check_same_thread" := false] else map[]
  }

  /** With every default the application uses the local SQLite file with thread sharing allowed. */
  lemma DefaultsUseLocalSqlite()
    ensures SqlalchemyDatabaseUrl(Settings()) == Ok(DefaultSqliteUrl)
    ensures DatabaseConnectArgs(Settings()) == map["check_same_thread" := false]
  {
  }

  /** Whenever a URL is chosen, connection arguments are present exactly for SQLite. */
  lemma ConnectArgsFollowUrl(s: Settings)
    requires SqlalchemyDatabaseUrl(s).Ok?
    ensures DatabaseConnectArgs(s) != map[] <==> s.databaseType == "sqlite"
    ensures s.databaseType != "sqlite" ==> SqlalchemyDatabaseUrl(s) == Ok(s.databaseUrl.value)
  {
    if s.databaseType == "sqlite" {
      assert "check_same_thread" in DatabaseConnectArgs(s);
    }
  }
}
