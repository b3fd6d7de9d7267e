/**
 * Tables from rule identifier to IP list. Both the local allowlist store and
 * the firewall's rule set are such tables; a missing entry reads as the empty
 * list.
 */
module Store {

  type Table = map<string, seq<string>>

  /** The list recorded under id, or the empty list when there is none. */
  function Get(t: Table, id: string): (ips: seq<string>)
    ensures id in t ==> ips == t[id]
    ensures id !in t ==> ips == []
  {
    if id in t then t[id] else []
  }

  /** The tables agree on every key other than id. */
  ghost predicate AgreeExcept(t: Table, t': Table, id: string) {
    forall k :: k != id ==> (k in t <==> k in t') && (k in t ==> t[k] == t'[k])
  }

  /** Records ips under id, replacing whatever was there. */
  function Put(t: Table, id: string, ips: seq<string>): (t': Table)
    ensures id in t' && Get(t', id) == ips
    ensures AgreeExcept(t, t', id)
  {
    t[id := ips]
  }

  /** Removes the entry for id, so that it reads as the empty list. */
  function Clear(t: Table, id: string): (t': Table)
    ensures id !in t' && Get(t', id) == []
    ensures AgreeExcept(t, t', id)
  {
    t - {id}
  }

  /**
   * Reading after a write: a put makes id read as the new list and a clear
   * makes it read as the empty list; every other identifier reads as before.
   */
  lemma ReadAfterWrite(t: Table, id: string, ips: seq<string>, k: string)
    ensures Get(Put(t, id, ips), k) == if k == id then ips else Get(t, k)
    ensures Get(Clear(t, id), k) == if k == id then [] else Get(t, k)
  {
  }

  /** Writing id erases every difference two tables had only at id. */
  lemma PutOverrides(t: Table, t': Table, id: string, ips: seq<string>)
    requires AgreeExcept(t, t', id)
    ensures Put(t, id, ips) == Put(t', id, ips)
  {
    assert Put(t, id, ips).Keys == Put(t', id, ips).Keys;
  }
}
