/**
 One stored collection of records, as the store keeps it between two file
 writes: an ordered sequence of entries, each a numeric id plus the entity's
 own fields. Everything here is shared by products and customers; the
 entity-specific parts (which fields, how a payload changes them) live in
 module DataManager.
 */
module Records {
  import opened Wrappers

  datatype Entry<F> = Entry(id: int, fields: F)

  /** Some record of `s` carries `id`. */
  predicate HasId<F>(s: seq<Entry<F>>, id: int)
  {
    exists i | 0 <= i < |s| :: s[i].id == id
  }

  /** No two records of `s` share an id. */
  ghost predicate DistinctIds<F>(s: seq<Entry<F>>)
  {
    forall i, j | 0 <= i < j < |s| :: s[i].id != s[j].id
  }

  /** Every id of `s` is at least 1, as every id the store hands out is. */
  ghost predicate PositiveIds<F>(s: seq<Entry<F>>)
  {
    forall i | 0 <= i < |s| :: s[i].id >= 1
  }

  /** `k` is the position of the first record of `s` carrying `id`. */
  ghost predicate IsFirst<F>(s: seq<Entry<F>>, id: int, k: int)
  {
    0 <= k < |s| && s[k].id == id && !HasId(s[..k], id)
  }

  /** The largest id of a non-empty collection (Python's `max` over the ids). */
  function MaxId<F>(s: seq<Entry<F>>): (m: int)
    requires |s| > 0
    ensures HasId(s, m)
    ensures forall i | 0 <= i < |s| :: s[i].id <= m
  {
    if |s| == 1 then s[0].id
    else
      var m := MaxId(s[1..]);
      assert forall i | 1 <= i < |s| :: s[i] == s[1..][i - 1];
      if s[0].id > m then s[0].id else m
  }

  /** The id the next created record gets: 1 for an empty collection, otherwise
      one more than the largest id in it. */
  function NextId<F>(s: seq<Entry<F>>): (r: int)
    ensures |s| == 0 ==> r == 1
    ensures |s| > 0 ==> HasId(s, r - 1)
    ensures forall i | 0 <= i < |s| :: s[i].id < r
  {
    if |s| == 0 then 1 else MaxId(s) + 1
  }

  /** Position of the first record carrying `id`, if any. */
  function FirstIndex<F>(s: seq<Entry<F>>, id: int): (r: Option<nat>)
    ensures r.None? <==> !HasId(s, id)
    ensures r.Some? ==> IsFirst(s, id, r.value)
  {
    if |s| == 0 then None
    else if s[0].id == id then Some(0)
    else
      match FirstIndex(s[1..], id)
      case None => None
      case Some(k) =>
        assert s[..k + 1] == [s[0]] + s[1..][..k];
        Some(k + 1)
  }

  /** Get-by-id: the first record carrying `id`, or nothing. */
  function Find<F>(s: seq<Entry<F>>, id: int): (r: Option<Entry<F>>)
    ensures r.None? <==> !HasId(s, id)
    ensures r.Some? ==> exists k :: IsFirst(s, id, k) && s[k] == r.value
  {
    match FirstIndex(s, id)
    case None => None
    case Some(k) => Some(s[k])
  }

  /** Create: append `fields` under a fresh id. */
  function Create<F>(s: seq<Entry<F>>, fields: F): (res: (seq<Entry<F>>, Entry<F>))
    ensures res.1.fields == fields
    ensures res.1.id == NextId(s)
    ensures res.0 == s + [res.1]
    ensures forall i | 0 <= i < |s| :: s[i].id < res.1.id
    ensures |s| == 0 ==> res.1.id == 1
    ensures DistinctIds(s) ==> DistinctIds(res.0)
    ensures PositiveIds(s) ==> PositiveIds(res.0)
    ensures Find(res.0, res.1.id) == Some(res.1)
  {
    var e := Entry(NextId(s), fields);
    var s' := s + [e];
    assert s'[..|s|] == s;
    assert IsFirst(s', e.id, |s|);
    FindsFirst(s', e.id, |s|);
    (s', e)
  }

  /** Update: rewrite the fields of the first record carrying `id` with `patch`;
      nothing changes when no record carries `id`. */
  function Update<F>(s: seq<Entry<F>>, id: int, patch: F -> F): (res: (seq<Entry<F>>, Option<Entry<F>>))
    ensures |res.0| == |s|
    ensures forall i | 0 <= i < |s| :: res.0[i].id == s[i].id
    ensures res.1.None? <==> !HasId(s, id)
    ensures res.1.None? ==> res.0 == s
    ensures res.1.Some? ==> exists k :: (
      && IsFirst(s, id, k)
      && res.1.value == Entry(id, patch(s[k].fields))
      && res.0[k] == res.1.value
      && forall i | 0 <= i < |s| && i != k :: res.0[i] == s[i])
    ensures DistinctIds(s) ==> DistinctIds(res.0)
    ensures PositiveIds(s) ==> PositiveIds(res.0)
    ensures Find(res.0, id) == res.1
  {
    match FirstIndex(s, id)
    case None => (s, None)
    case Some(k) =>
      var e := Entry(id, patch(s[k].fields));
      var s' := s[k := e];
      assert s'[..k] == s[..k];
      assert IsFirst(s', id, k);
      FindsFirst(s', id, k);
      (s', Some(e))
  }

  /** The records of `s` that do not carry `id`, in their original order. */
  function Remove<F>(s: seq<Entry<F>>, id: int): (r: seq<Entry<F>>)
    ensures forall e | e in r :: e in s && e.id != id
    ensures forall e | e in s && e.id != id :: e in r
    ensures |r| <= |s|
    ensures |r| < |s| <==> HasId(s, id)
    ensures !HasId(s, id) ==> r == s
  {
    if |s| == 0 then []
    else
      var rest := Remove(s[1..], id);
      assert HasId(s, id) <==> s[0].id == id || HasId(s[1..], id) by {
        assert forall i | 1 <= i < |s| :: s[i] == s[1..][i - 1];
      }
      if s[0].id == id then rest else [s[0]] + rest
  }

  /** Delete: remove every record carrying `id`; report whether anything went. */
  function Delete<F>(s: seq<Entry<F>>, id: int): (res: (seq<Entry<F>>, bool))
    ensures res.1 <==> HasId(s, id)
    ensures res.1 <==> |res.0| < |s|
    ensures !res.1 ==> res.0 == s
    ensures res.0 == Remove(s, id)
    ensures !HasId(res.0, id)
    ensures forall e | e in res.0 :: e in s && e.id != id
    ensures forall e | e in s && e.id != id :: e in res.0
    ensures DistinctIds(s) ==> DistinctIds(res.0)
    ensures PositiveIds(s) ==> PositiveIds(res.0)
  {
    var r := Remove(s, id);
    RemoveKeepsDistinct(s, id);
    if |r| < |s| then (r, true) else (s, false)
  }

  // ---------------------------------------------------------------------------
  // Lemmas

  /** `FirstIndex` and `Find` return the first record carrying `id`. */
  lemma FindsFirst<F>(s: seq<Entry<F>>, id: int, k: int)
    requires IsFirst(s, id, k)
    ensures FirstIndex(s, id) == Some(k)
    ensures Find(s, id) == Some(s[k])
  {
  }

  /** In a collection with distinct ids, get-by-id finds each record by its own id. */
  lemma FindDistinct<F>(s: seq<Entry<F>>, i: int)
    requires DistinctIds(s)
    requires 0 <= i < |s|
    ensures Find(s, s[i].id) == Some(s[i])
  {
    assert !HasId(s[..i], s[i].id) by {
      forall j | 0 <= j < i ensures s[..i][j].id != s[i].id {
        assert s[..i][j] == s[j];
      }
    }
    FindsFirst(s, s[i].id, i);
  }

  /** A record whose id no other record has may go in front of a collection
      with distinct ids. */
  lemma ConsDistinct<F>(e: Entry<F>, s: seq<Entry<F>>)
    requires DistinctIds(s)
    requires forall x | x in s :: x.id != e.id
    ensures DistinctIds([e] + s)
  {
    var r := [e] + s;
    forall i, j | 0 <= i < j < |r| ensures r[i].id != r[j].id {
      assert r[j] == s[j - 1];
      if i > 0 { assert r[i] == s[i - 1]; }
    }
  }

  /** In a collection with distinct ids, the rest has distinct ids and none is the first record's. */
  lemma TailDistinct<F>(s: seq<Entry<F>>)
    requires DistinctIds(s) && |s| > 0
    ensures DistinctIds(s[1..])
    ensures forall x | x in s[1..] :: x.id != s[0].id
  {
    var t := s[1..];
    forall i, j | 0 <= i < j < |t| ensures t[i].id != t[j].id {
      assert t[i] == s[i + 1] && t[j] == s[j + 1];
    }
    forall x | x in t ensures x.id != s[0].id {
      var m :| 0 <= m < |t| && t[m] == x;
      assert s[m + 1] == x;
    }
  }

  lemma {:induction false} RemoveKeepsDistinct<F>(s: seq<Entry<F>>, id: int)
    ensures DistinctIds(s) ==> DistinctIds(Remove(s, id))
  {
    if |s| > 0 && DistinctIds(s) {
      TailDistinct(s);
      RemoveKeepsDistinct(s[1..], id);
      if s[0].id != id {
        ConsDistinct(s[0], Remove(s[1..], id));
      }
    }
  }

  /** Delete keeps the relative order of the records it keeps: removing from a
      concatenation is removing from each part. */
  lemma {:induction false} RemoveDistributes<F>(a: seq<Entry<F>>, b: seq<Entry<F>>, id: int)
    ensures Remove(a + b, id) == Remove(a, id) + Remove(b, id)
  {
    if |a| == 0 {
      assert a + b == b;
    } else {
      assert (a + b)[1..] == a[1..] + b;
      RemoveDistributes(a[1..], b, id);
    }
  }

  /** Creating advances the next id past the id just given out. */
  lemma NextIdAfterCreate<F>(s: seq<Entry<F>>, fields: F)
    ensures NextId(Create(s, fields).0) == Create(s, fields).1.id + 1
  {
    var (s', e) := Create(s, fields);
    assert s'[|s|] == e;
  }

  /** An update leaves the next id where it was. */
  lemma NextIdAfterUpdate<F>(s: seq<Entry<F>>, id: int, patch: F -> F)
    ensures NextId(Update(s, id, patch).0) == NextId(s)
  {
    var s' := Update(s, id, patch).0;
    if |s| > 0 {
      var m :| 0 <= m < |s| && s[m].id == NextId(s) - 1;
      assert s'[m].id == NextId(s) - 1;
      var m' :| 0 <= m' < |s'| && s'[m'].id == NextId(s') - 1;
      assert s[m'].id == NextId(s') - 1;
    }
  }

  /** A delete never raises the next id; it lowers it when the record with the
      largest id goes, which is how a later create can reuse an id. */
  lemma NextIdAfterDelete<F>(s: seq<Entry<F>>, id: int)
    requires PositiveIds(s)
    ensures NextId(Delete(s, id).0) <= NextId(s)
  {
    var s' := Delete(s, id).0;
    if |s'| > 0 {
      var m' :| 0 <= m' < |s'| && s'[m'].id == NextId(s') - 1;
      assert s'[m'] in s;
      var i :| 0 <= i < |s| && s[i] == s'[m'];
    }
  }

  /** Repeating an update whose patch leaves its own result alone changes nothing more. */
  lemma UpdateFixedPoint<F>(s: seq<Entry<F>>, id: int, patch: F -> F)
    requires Update(s, id, patch).1.Some? ==>
      patch(Update(s, id, patch).1.value.fields) == Update(s, id, patch).1.value.fields
    ensures Update(Update(s, id, patch).0, id, patch) == Update(s, id, patch)
  {
    match FirstIndex(s, id)
    case None =>
    case Some(k) =>
      var e := Entry(id, patch(s[k].fields));
      var s' := s[k := e];
      assert s'[..k] == s[..k];
      FindsFirst(s', id, k);
      assert s'[k := e] == s';
  }
}
