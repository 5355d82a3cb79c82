/**
 The router's per-database cache of prepared statements: one cache per database, keyed by
 the SQL text. A cache is created for a database the first time a statement is stored
 for it, and storing under a key the cache already holds leaves the held value in place.
 */
module RouterCache {
  import opened Wrappers

  /** Database name to (SQL text to cached value). */
  type Caches<V> = map<string, map<string, V>>

  /** The value cached for `sql` in database `db`, if any. */
  function GetCache<V>(caches: Caches<V>, db: string, sql: string): (r: Option<V>)
    ensures r.Some? <==> db in caches && sql in caches[db]
  {
    if db in caches && sql in caches[db] then Some(caches[db][sql]) else None
  }

  /** Store `value` for `sql` in database `db`, creating the database's cache on first use. */
  function SetCache<V>(caches: Caches<V>, db: string, sql: string, value: V): (r: Caches<V>)
    ensures r.Keys == caches.Keys + {db}
  {
    var cache := if db in caches then caches[db] else map[];
    var updated := if sql in cache then cache else cache[sql := value];
    caches[db := updated]
  }

  /** After a store the statement is cached: the stored value when it was missing, the held value otherwise. */
  lemma GetAfterSet<V>(caches: Caches<V>, db: string, sql: string, value: V)
    ensures GetCache(SetCache(caches, db, sql, value), db, sql) ==
      if GetCache(caches, db, sql).None? then Some(value) else GetCache(caches, db, sql)
  {
  }

  /**
   A store touches no other statement, in this database or another. With a bounded cache
   this holds only while the database's cache is below capacity: a full one evicts its
   least recently used statement first.
   */
  lemma SetKeepsOthers<V>(caches: Caches<V>, db: string, sql: string, value: V, db2: string, sql2: string)
    requires db2 != db || sql2 != sql
    ensures GetCache(SetCache(caches, db, sql, value), db2, sql2) == GetCache(caches, db2, sql2)
  {
  }

  /** Storing a statement that is already cached changes nothing. */
  lemma SetCachedIsIdle<V>(caches: Caches<V>, db: string, sql: string, value: V)
    requires GetCache(caches, db, sql).Some?
    ensures SetCache(caches, db, sql, value) == caches
  {
  }
}
