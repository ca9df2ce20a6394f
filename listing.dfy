/** How a collection is read back as a sequence: a scan in identifier order, and the
    stable newest-first ordering that `.sort({ createdAt: -1 })` asks of the store. */
module Listing {
  import opened AdminTypes

  /** One document of a scanned collection, with its identifier. */
  datatype Entry<T> = Entry(id: Id, doc: T)

  /** `k` is the least member of `ks`. */
  predicate IsLeast(k: Id, ks: set<Id>) {
    k in ks && forall j :: j in ks ==> k <= j
  }

  lemma {:induction false} MinExists(ks: set<Id>)
    requires ks != {}
    ensures exists k :: IsLeast(k, ks)
    decreases ks
  {
    var x :| x in ks;
    var others := ks - {x};
    if others == {} {
      assert ks == {x};
      assert IsLeast(x, ks);
    } else {
      MinExists(others);
      var m :| IsLeast(m, others);
      var least := if x < m then x else m;
      forall j | j in ks ensures least <= j {
        if j != x {
          assert j in others;
        }
      }
      assert IsLeast(least, ks);
    }
  }

  /** The least identifier of a non-empty set. */
  function MinKey(ks: set<Id>): (k: Id)
    requires ks != {}
    ensures k in ks && forall j :: j in ks ==> k <= j
  {
    MinExists(ks);
    var k :| IsLeast(k, ks);
    k
  }

  /** An identifier that no member of `ks` uses (a stand-in for generating a new ObjectId). */
  function NextId(ks: set<Id>): (n: Id)
    ensures forall k :: k in ks ==> k < n
    decreases ks
  {
    if ks == {} then 0
    else
      var k := MinKey(ks);
      var rest := NextId(ks - {k});
      var n := if rest <= k then k + 1 else rest;
      assert forall j :: j in ks ==> j == k || j in ks - {k};
      n
  }

  /** The identifiers that occur in `s`. */
  ghost function IdsOf<T>(s: seq<Entry<T>>): set<Id> {
    set i | 0 <= i < |s| :: s[i].id
  }

  /** No identifier occurs twice. */
  ghost predicate DistinctIds<T>(s: seq<Entry<T>>) {
    forall i, j :: 0 <= i < j < |s| ==> s[i].id != s[j].id
  }

  /** The documents of `m` in ascending identifier order (the collection's natural order). */
  function Scan<T>(m: map<Id, T>): (s: seq<Entry<T>>)
    ensures |s| == |m|
    decreases m.Keys
  {
    if m == map[] then []
    else
      var k := MinKey(m.Keys);
      RemoveOne(m, k);
      [Entry(k, m[k])] + Scan(m - {k})
  }

  /** Every entry of a scan is a document of the map, under its own identifier. */
  lemma {:induction false} ScanDocs<T>(m: map<Id, T>)
    ensures forall i :: 0 <= i < |Scan(m)| ==> Scan(m)[i].id in m && m[Scan(m)[i].id] == Scan(m)[i].doc
    decreases m.Keys
  {
    if m != map[] {
      var k := MinKey(m.Keys);
      RemoveOne(m, k);
      ScanDocs(m - {k});
      assert Scan(m) == [Entry(k, m[k])] + Scan(m - {k});
    }
  }

  /** A scan lists every identifier of the map. */
  lemma {:induction false} ScanCovers<T>(m: map<Id, T>)
    ensures forall id :: id in m ==> id in IdsOf(Scan(m))
    decreases m.Keys
  {
    if m != map[] {
      var k := MinKey(m.Keys);
      var rest := m - {k};
      RemoveOne(m, k);
      ScanCovers(rest);
      var tail := Scan(rest);
      var s := Scan(m);
      assert s == [Entry(k, m[k])] + tail;
      forall id | id in m ensures id in IdsOf(s) {
        if id == k {
          assert s[0].id == id;
        } else {
          assert id in rest;
          var i :| 0 <= i < |tail| && tail[i].id == id;
          assert s[i + 1].id == id;
        }
      }
    }
  }

  /** A scan is in strictly ascending identifier order, so no identifier repeats. */
  lemma {:induction false} ScanAscending<T>(m: map<Id, T>)
    ensures forall i, j :: 0 <= i < j < |Scan(m)| ==> Scan(m)[i].id < Scan(m)[j].id
    ensures DistinctIds(Scan(m))
    decreases m.Keys
  {
    if m != map[] {
      var k := MinKey(m.Keys);
      var rest := m - {k};
      RemoveOne(m, k);
      ScanAscending(rest);
      ScanDocs(rest);
      var tail := Scan(rest);
      var s := Scan(m);
      assert s == [Entry(k, m[k])] + tail;
      forall i | 0 <= i < |tail| ensures s[i + 1] == tail[i] && k < tail[i].id {
        assert tail[i].id in rest;
      }
    }
  }

  /** Dropping a present key removes exactly that key and shrinks the map by one. */
  lemma RemoveOne<T>(m: map<Id, T>, k: Id)
    requires k in m
    ensures (m - {k}).Keys == m.Keys - {k}
    ensures |m - {k}| == |m| - 1
    ensures forall id :: id in m - {k} ==> (m - {k})[id] == m[id]
  {
    assert (m - {k}).Keys == m.Keys - {k};
    assert |m.Keys - {k}| == |m.Keys| - 1;
  }

  /** Newest first: creation times never increase along `s`. */
  ghost predicate NewestFirstOrder<T>(s: seq<Entry<T>>, created: T -> Time) {
    forall i, j :: 0 <= i < j < |s| ==> created(s[i].doc) >= created(s[j].doc)
  }

  /** Puts `e` before the first entry of `s` that is not newer than it. */
  function Insert<T>(e: Entry<T>, s: seq<Entry<T>>, created: T -> Time): (r: seq<Entry<T>>)
    ensures |r| == |s| + 1
  {
    if s == [] || created(e.doc) >= created(s[0].doc) then [e] + s
    else [s[0]] + Insert(e, s[1..], created)
  }

  /** Inserting adds `e` and keeps everything else. */
  lemma {:induction false} InsertAdds<T>(e: Entry<T>, s: seq<Entry<T>>, created: T -> Time)
    ensures multiset(Insert(e, s, created)) == multiset(s) + multiset{e}
  {
    if s != [] && created(e.doc) < created(s[0].doc) {
      InsertAdds(e, s[1..], created);
      assert s == [s[0]] + s[1..];
    }
  }

  /** Every entry after inserting is `e` or was already there. */
  lemma InsertMembers<T>(e: Entry<T>, s: seq<Entry<T>>, created: T -> Time)
    ensures forall x :: x in Insert(e, s, created) ==> x == e || x in s
  {
    InsertAdds(e, s, created);
    forall x | x in Insert(e, s, created) ensures x == e || x in s {
      assert x in multiset(Insert(e, s, created));
    }
  }

  /** The tail of a sequence keeps the order and the distinctness of the whole. */
  lemma TailKeeps<T>(s: seq<Entry<T>>, created: T -> Time)
    requires s != []
    ensures NewestFirstOrder(s, created) ==> NewestFirstOrder(s[1..], created)
    ensures DistinctIds(s) ==> DistinctIds(s[1..])
    ensures forall x :: x in s[1..] ==> x in s
  {
    assert forall i :: 0 <= i < |s| - 1 ==> s[1..][i] == s[i + 1];
  }

  /** Inserting into a newest-first sequence keeps it newest first. */
  lemma {:induction false} InsertOrdered<T>(e: Entry<T>, s: seq<Entry<T>>, created: T -> Time)
    requires NewestFirstOrder(s, created)
    ensures NewestFirstOrder(Insert(e, s, created), created)
  {
    if s == [] || created(e.doc) >= created(s[0].doc) {
      var r := [e] + s;
      forall i, j | 0 <= i < j < |r| ensures created(r[i].doc) >= created(r[j].doc) {
        if i > 0 {
          assert r[i] == s[i - 1];
        }
        assert r[j] == s[j - 1];
      }
    } else {
      var rest := s[1..];
      TailKeeps(s, created);
      InsertOrdered(e, rest, created);
      InsertMembers(e, rest, created);
      var tail := Insert(e, rest, created);
      forall k | 0 <= k < |tail| ensures created(tail[k].doc) <= created(s[0].doc) {
        assert tail[k] in tail;
        if tail[k] != e {
          var m :| 0 <= m < |rest| && rest[m] == tail[k];
          assert rest[m] == s[m + 1];
        }
      }
      var r := [s[0]] + tail;
      forall i, j | 0 <= i < j < |r| ensures created(r[i].doc) >= created(r[j].doc) {
        assert r[j] == tail[j - 1];
        if i > 0 {
          assert r[i] == tail[i - 1];
        }
      }
    }
  }

  /** Inserting an entry whose identifier is new keeps identifiers distinct. */
  lemma {:induction false} InsertDistinct<T>(e: Entry<T>, s: seq<Entry<T>>, created: T -> Time)
    requires DistinctIds(s) && e.id !in IdsOf(s)
    ensures DistinctIds(Insert(e, s, created))
  {
    if s == [] || created(e.doc) >= created(s[0].doc) {
      var r := [e] + s;
      forall i, j | 0 <= i < j < |r| ensures r[i].id != r[j].id {
        assert r[j] == s[j - 1];
        if i == 0 {
          assert s[j - 1].id in IdsOf(s);
        } else {
          assert r[i] == s[i - 1];
        }
      }
    } else {
      var rest := s[1..];
      TailKeeps(s, created);
      assert e.id !in IdsOf(rest) by {
        forall m | 0 <= m < |rest| ensures rest[m].id != e.id {
          assert rest[m] == s[m + 1];
          assert s[m + 1].id in IdsOf(s);
        }
      }
      InsertDistinct(e, rest, created);
      InsertMembers(e, rest, created);
      var tail := Insert(e, rest, created);
      forall k | 0 <= k < |tail| ensures tail[k].id != s[0].id {
        assert tail[k] in tail;
        if tail[k] == e {
          assert s[0].id in IdsOf(s);
        } else {
          var m :| 0 <= m < |rest| && rest[m] == tail[k];
          assert rest[m] == s[m + 1];
        }
      }
      var r := [s[0]] + tail;
      forall i, j | 0 <= i < j < |r| ensures r[i].id != r[j].id {
        assert r[j] == tail[j - 1];
        if i > 0 {
          assert r[i] == tail[i - 1];
        }
      }
    }
  }

  /** A stable sort of `s`, newest first: `.sort({ createdAt: -1 })`. */
  function NewestFirst<T>(s: seq<Entry<T>>, created: T -> Time): (r: seq<Entry<T>>)
    ensures |r| == |s|
  {
    if s == [] then [] else Insert(s[0], NewestFirst(s[1..], created), created)
  }

  /** Sorting is a permutation: the same entries, as often as before. */
  lemma {:induction false} NewestFirstPermutes<T>(s: seq<Entry<T>>, created: T -> Time)
    ensures multiset(NewestFirst(s, created)) == multiset(s)
  {
    if s != [] {
      NewestFirstPermutes(s[1..], created);
      InsertAdds(s[0], NewestFirst(s[1..], created), created);
      assert s == [s[0]] + s[1..];
    }
  }

  /** The sorted sequence is newest first. */
  lemma {:induction false} NewestFirstOrdered<T>(s: seq<Entry<T>>, created: T -> Time)
    ensures NewestFirstOrder(NewestFirst(s, created), created)
  {
    if s != [] {
      NewestFirstOrdered(s[1..], created);
      InsertOrdered(s[0], NewestFirst(s[1..], created), created);
    }
  }

  /** Sorting keeps distinct identifiers distinct. */
  lemma {:induction false} NewestFirstDistinct<T>(s: seq<Entry<T>>, created: T -> Time)
    requires DistinctIds(s)
    ensures DistinctIds(NewestFirst(s, created))
  {
    if s != [] {
      var tail := NewestFirst(s[1..], created);
      assert forall i :: 0 <= i < |s| - 1 ==> s[1..][i] == s[i + 1];
      NewestFirstDistinct(s[1..], created);
      NewestFirstPermutes(s[1..], created);
      forall id | id in IdsOf(tail) ensures id != s[0].id {
        var k :| 0 <= k < |tail| && tail[k].id == id;
        assert tail[k] in multiset(s[1..]);
        var j :| 0 <= j < |s| - 1 && s[1..][j] == tail[k];
      }
      InsertDistinct(s[0], tail, created);
    }
  }
}
