/** The Redis key-value store the services share, reduced to the commands
    they issue (`GET`, `EXISTS`, `SETEX`, `SET ... EX`, `DEL`). Time is an
    integer number of seconds passed in by the caller; an entry whose expiry
    instant has been reached is invisible, as Redis treats it. */
module Kv {
  import opened Wrappers

  /** A stored string and the instant (seconds) at which it expires, if any. */
  datatype Entry = Entry(value: string, expiresAt: Option<int>)

  type Store = map<string, Entry>

  /** Redis refuses `SETEX` with a non-positive time ("invalid expire time"). */
  datatype KvError = InvalidExpireTime

  predicate Live(e: Entry, now: int) {
    e.expiresAt.None? || now < e.expiresAt.value
  }

  /** Two stores that agree on every key but `key`. */
  ghost predicate SameExcept(s: Store, t: Store, key: string) {
    && (forall k :: k != key ==> (k in s <==> k in t))
    && (forall k :: k != key && k in s ==> k in t && s[k] == t[k])
  }

  /** `GET key`: the value when the key is present and not expired. */
  function Get(s: Store, key: string, now: int): (r: Option<string>)
    ensures r.Some? <==> key in s && Live(s[key], now)
    ensures r.Some? ==> r.value == s[key].value
  {
    if key in s && Live(s[key], now) then Some(s[key].value) else None
  }

  /** `EXISTS key > 0`. */
  function Exists(s: Store, key: string, now: int): (b: bool)
    ensures b <==> Get(s, key, now).Some?
  {
    key in s && Live(s[key], now)
  }

  /** `SETEX key ttl value`: sets the value with a time to live, replacing
      any previous entry; a non-positive ttl is refused. */
  function SetEx(s: Store, key: string, ttl: int, value: string, now: int): (r: Result<Store, KvError>)
    ensures r.Err? <==> ttl <= 0
    ensures r.Ok? ==> key in r.value && r.value[key] == Entry(value, Some(now + ttl))
    ensures r.Ok? ==> r.value.Keys == s.Keys + {key} && SameExcept(s, r.value, key)
  {
    if ttl <= 0 then Err(InvalidExpireTime)
    else Ok(s[key := Entry(value, Some(now + ttl))])
  }

  /** `DEL key`: removes the key if present; deleting an absent key is a no-op. */
  function Delete(s: Store, key: string): (r: Store)
    ensures key !in r
    ensures r.Keys == s.Keys - {key} && SameExcept(s, r, key)
    ensures key !in s ==> r == s
  {
    s - {key}
  }
}
