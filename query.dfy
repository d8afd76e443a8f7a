/**
  What a table query without an explicit order returns: the rows in ascending
  id order (the storage engine's scan order), then `offset(skip).limit(limit)`.
 */
module Query {

  /** The first id the storage engine hands out. */
  const FirstId: int := 1

  /** The page size the listing operations use when the caller gives none. */
  const DefaultLimit: nat := 100

  /** The rows of `m` whose ids lie in `[FirstId, hi)`, in ascending id order. */
  function Rows<T>(m: map<int, T>, hi: int): (r: seq<T>)
    ensures |r| <= if hi <= FirstId then 0 else hi - FirstId
    decreases hi - FirstId
  {
    if hi <= FirstId then [] else Rows(m, hi - 1) + (if hi - 1 in m then [m[hi - 1]] else [])
  }

  /** Drops the first `skip` rows and keeps at most `limit` of the rest. */
  function Page<T>(s: seq<T>, skip: nat, limit: nat): (r: seq<T>)
    ensures |r| <= limit
    ensures |r| == if skip >= |s| then 0 else if |s| - skip < limit then |s| - skip else limit
    ensures forall i :: 0 <= i < |r| ==> r[i] == s[skip + i]
  {
    var rest := if skip >= |s| then [] else s[skip..];
    if |rest| <= limit then rest else rest[..limit]
  }

  /** A row is listed exactly when it is stored under an id in range. */
  lemma {:induction false} RowsMembers<T>(m: map<int, T>, hi: int, x: T)
    ensures x in Rows(m, hi) <==> exists k :: k in m && FirstId <= k < hi && m[k] == x
    decreases hi - FirstId
  {
    if hi > FirstId {
      RowsMembers(m, hi - 1, x);
      if x in Rows(m, hi) && x !in Rows(m, hi - 1) {
        assert hi - 1 in m && m[hi - 1] == x;
      }
      if exists k :: k in m && FirstId <= k < hi && m[k] == x {
        var k :| k in m && FirstId <= k < hi && m[k] == x;
        if k == hi - 1 {
          assert x in Rows(m, hi)[|Rows(m, hi)| - 1..];
        } else {
          assert x in Rows(m, hi - 1);
        }
      }
    }
  }

  /** The rows of `m` are stored under their own ids when `key` reads each row's id. */
  ghost predicate KeyedBy<T>(m: map<int, T>, key: T -> int) {
    forall k :: k in m ==> key(m[k]) == k
  }

  /**
    Rows stored under their own ids are listed each under an id in range, each as
    the row stored under its id, in strictly ascending id order.
   */
  lemma {:induction false} RowsKeyed<T>(m: map<int, T>, key: T -> int, hi: int)
    requires KeyedBy(m, key)
    ensures forall i :: 0 <= i < |Rows(m, hi)| ==>
      FirstId <= key(Rows(m, hi)[i]) < hi && key(Rows(m, hi)[i]) in m && m[key(Rows(m, hi)[i])] == Rows(m, hi)[i]
    ensures forall i, j :: 0 <= i < j < |Rows(m, hi)| ==> key(Rows(m, hi)[i]) < key(Rows(m, hi)[j])
    decreases hi - FirstId
  {
    if hi > FirstId {
      RowsKeyed(m, key, hi - 1);
    }
  }

  /** A page of such a listing keeps all three properties. */
  lemma PageKeyed<T>(m: map<int, T>, key: T -> int, hi: int, skip: nat, limit: nat)
    requires KeyedBy(m, key)
    ensures var r := Page(Rows(m, hi), skip, limit);
      && (forall i :: 0 <= i < |r| ==> key(r[i]) in m && m[key(r[i])] == r[i])
      && (forall i, j :: 0 <= i < j < |r| ==> key(r[i]) < key(r[j]))
  {
    RowsKeyed(m, key, hi);
  }

  /**
    The listing is empty exactly when no id in range is stored; otherwise it
    starts with the row stored under the smallest such id.
   */
  lemma {:induction false} RowsFirst<T>(m: map<int, T>, hi: int)
    ensures Rows(m, hi) == [] <==> forall k :: k in m ==> !(FirstId <= k < hi)
    ensures Rows(m, hi) != [] ==>
      exists k0 :: k0 in m && FirstId <= k0 < hi && Rows(m, hi)[0] == m[k0] &&
        (forall k :: k in m && FirstId <= k < hi ==> k0 <= k)
    decreases hi - FirstId
  {
    if hi > FirstId {
      RowsFirst(m, hi - 1);
      if Rows(m, hi - 1) == [] && hi - 1 in m {
        assert Rows(m, hi) == [m[hi - 1]];
      }
    }
  }
}
