/** The settings the core reads. `app/core/config.py` declares none of them,
    so they are a value handed to every operation instead of a global. Both
    spellings the source uses are kept: the token module reads
    `ACCESS_TTL_MIN`/`REFRESH_TTL_DAYS`, the auth service `ACCESS_MIN`/`REFRESH_DAYS`. */
module Config {

  datatype Settings = Settings(
    jwtSecret: string,
    jwtAlg: string,
    accessTtlMin: int,
    refreshTtlDays: int,
    accessMin: int,
    refreshDays: int)

  const SecondsPerMinute: int := 60
  const SecondsPerDay: int := 86400
}
