/** The refresh-session registry of `app/services/refresh_store.py`: one
    key-value entry `rt:<jti>` per outstanding refresh token, holding the
    JSON text `{"uid": <user id>}` and expiring after a time to live. */
module RefreshStore {
  import opened Wrappers
  import opened Kv
  import JsonText

  const Prefix: string := "rt:"

  /** The key a session is stored under. */
  function Key(jti: string): (k: string)
    ensures |k| == |Prefix| + |jti| && k[..|Prefix|] == Prefix && k[|Prefix|..] == jti
  {
    Prefix + jti
  }

  /** Distinct token ids never share a key, so each operation below touches
      one session only. */
  lemma KeyInjective(a: string, b: string)
    requires Key(a) == Key(b)
    ensures a == b
  {
    assert a == Key(a)[|Prefix|..];
  }

  /** `save_refresh`: stores the session for `ttlSec` seconds, replacing any
      earlier session under the same id; Redis refuses a non-positive ttl. */
  function SaveRefresh(s: Store, jti: string, userId: string, ttlSec: int, now: int): (r: Result<Store, KvError>)
    ensures r.Err? <==> ttlSec <= 0
    ensures r.Ok? ==> r.value.Keys == s.Keys + {Key(jti)} && SameExcept(s, r.value, Key(jti))
    ensures r.Ok? ==> r.value[Key(jti)].expiresAt == Some(now + ttlSec)
    ensures r.Ok? ==> JsonText.ParseUid(r.value[Key(jti)].value) == Some(userId)
  {
    JsonText.ParseDumpsUid(userId);
    SetEx(s, Key(jti), ttlSec, JsonText.DumpsUid(userId), now)
  }

  /** `exists_refresh`. */
  function ExistsRefresh(s: Store, jti: string, now: int): (b: bool)
    ensures b <==> Get(s, Key(jti), now).Some?
  {
    Exists(s, Key(jti), now)
  }

  /** `delete_refresh`. */
  function DeleteRefresh(s: Store, jti: string): (r: Store)
    ensures r.Keys == s.Keys - {Key(jti)} && SameExcept(s, r, Key(jti))
  {
    Delete(s, Key(jti))
  }

  /** After a save, the session exists exactly until its time to live has
      elapsed. */
  lemma SaveThenExists(s: Store, jti: string, userId: string, ttlSec: int, now: int, later: int)
    requires SaveRefresh(s, jti, userId, ttlSec, now).Ok?
    ensures ExistsRefresh(SaveRefresh(s, jti, userId, ttlSec, now).value, jti, later)
            <==> later < now + ttlSec
  {
  }

  /** Saving under an id that already has a session overwrites it: the
      number of entries does not grow. */
  lemma SaveOverwrites(s: Store, jti: string, userId: string, ttlSec: int, now: int)
    requires Key(jti) in s
    requires SaveRefresh(s, jti, userId, ttlSec, now).Ok?
    ensures |SaveRefresh(s, jti, userId, ttlSec, now).value| == |s|
  {
    assert SaveRefresh(s, jti, userId, ttlSec, now).value.Keys == s.Keys;
  }

  /** After a delete the session no longer exists, at any time. */
  lemma DeleteThenAbsent(s: Store, jti: string, later: int)
    ensures !ExistsRefresh(DeleteRefresh(s, jti), jti, later)
  {
  }

  /** Deleting an absent session changes nothing, so delete is idempotent. */
  lemma DeleteIdempotent(s: Store, jti: string)
    ensures Key(jti) !in s ==> DeleteRefresh(s, jti) == s
    ensures DeleteRefresh(DeleteRefresh(s, jti), jti) == DeleteRefresh(s, jti)
  {
  }

  /** Saving or deleting one session leaves every other session as it was. */
  lemma OthersUnchanged(s: Store, jti: string, other: string, userId: string, ttlSec: int, now: int, later: int)
    requires other != jti
    ensures ExistsRefresh(DeleteRefresh(s, jti), other, later) == ExistsRefresh(s, other, later)
    ensures Get(DeleteRefresh(s, jti), Key(other), later) == Get(s, Key(other), later)
    ensures SaveRefresh(s, jti, userId, ttlSec, now).Ok? ==>
              && ExistsRefresh(SaveRefresh(s, jti, userId, ttlSec, now).value, other, later)
                 == ExistsRefresh(s, other, later)
              && Get(SaveRefresh(s, jti, userId, ttlSec, now).value, Key(other), later)
                 == Get(s, Key(other), later)
    ensures Key(other) in s ==>
              && DeleteRefresh(s, jti)[Key(other)] == s[Key(other)]
              && (SaveRefresh(s, jti, userId, ttlSec, now).Ok? ==>
                    SaveRefresh(s, jti, userId, ttlSec, now).value[Key(other)] == s[Key(other)])
  {
    if Key(other) == Key(jti) {
      KeyInjective(other, jti);
    }
  }
}
