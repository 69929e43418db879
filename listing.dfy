/** What the listing query returns: every visible report of the city, once,
    with its live confirmation count, newest first. Rows with equal
    created_at may come in any order, as `order by r.created_at desc`
    leaves them. */
module Listing {
  import opened Types
  import opened Tables

  /** One row of the listing: a report id and the report as returned. */
  datatype Entry = Entry(id: ReportId, row: Report)

  function Ids(s: seq<Entry>): set<ReportId>
  {
    set e | e in s :: e.id
  }

  predicate NewestFirst(s: seq<Entry>)
  {
    forall i, j :: 0 <= i < j < |s| ==> s[i].row.createdAt >= s[j].row.createdAt
  }

  predicate DistinctIds(s: seq<Entry>)
  {
    forall i, j :: 0 <= i < j < |s| ==> s[i].id != s[j].id
  }

  /** A correct answer of the listing query on `db`. */
  ghost predicate IsListing(db: Db, city: City, window: int, now: Time, out: seq<Entry>)
  {
    && NewestFirst(out)
    && DistinctIds(out)
    && Ids(out) == VisibleIds(db, city, window, now)
    && (forall e :: e in out ==> e.id in db.reports && e.row == Annotated(db, e.id))
  }

  /** Places `e` before the first entry that is not newer than it. */
  function InsertNewestFirst(s: seq<Entry>, e: Entry): seq<Entry>
  {
    if s == [] || s[0].row.createdAt <= e.row.createdAt then [e] + s
    else [s[0]] + InsertNewestFirst(s[1..], e)
  }

  /** Insertion adds `e` and keeps every other entry. */
  lemma {:induction false} InsertNewestFirstElements(s: seq<Entry>, e: Entry)
    ensures multiset(InsertNewestFirst(s, e)) == multiset(s) + multiset{e}
  {
    if s != [] && s[0].row.createdAt > e.row.createdAt {
      InsertNewestFirstElements(s[1..], e);
      assert s == [s[0]] + s[1..];
    }
  }

  /** Ids follow membership. */
  lemma IdsOfMembers(r: seq<Entry>, s: seq<Entry>, e: Entry)
    requires multiset(r) == multiset(s) + multiset{e}
    ensures Ids(r) == Ids(s) + {e.id}
  {
    forall x ensures x in r <==> x in s || x == e {
      assert x in r <==> x in multiset(r);
      assert x in s <==> x in multiset(s);
    }
  }

  /** Putting in front an entry at least as new as, and with an id other
      than, every entry of a newest-first list keeps both properties. */
  lemma Cons(h: Entry, rest: seq<Entry>)
    requires NewestFirst(rest) && DistinctIds(rest)
    requires forall x :: x in rest ==> x.row.createdAt <= h.row.createdAt && x.id != h.id
    ensures NewestFirst([h] + rest) && DistinctIds([h] + rest)
  {
  }

  /** The first case of insertion: `e` goes in front. */
  lemma InsertInFront(s: seq<Entry>, e: Entry)
    requires NewestFirst(s) && DistinctIds(s) && e.id !in Ids(s)
    requires s == [] || s[0].row.createdAt <= e.row.createdAt
    ensures NewestFirst([e] + s) && DistinctIds([e] + s)
  {
  }

  /** The second case of insertion: the head stays in front of the
      list the rest was inserted into. */
  lemma InsertBehind(s: seq<Entry>, e: Entry, rest: seq<Entry>)
    requires NewestFirst(s) && DistinctIds(s) && e.id !in Ids(s)
    requires s != [] && s[0].row.createdAt > e.row.createdAt
    requires NewestFirst(rest) && DistinctIds(rest)
    requires multiset(rest) == multiset(s[1..]) + multiset{e}
    ensures NewestFirst([s[0]] + rest) && DistinctIds([s[0]] + rest)
  {
    var tail := s[1..];
    forall x | x in rest ensures x.row.createdAt <= s[0].row.createdAt && x.id != s[0].id {
      assert x in multiset(rest);
      if x != e {
        var k :| 0 <= k < |tail| && tail[k] == x;
        assert s[k + 1] == x;
      }
    }
    Cons(s[0], rest);
  }

  /** Inserting a new id into a newest-first list without repeated ids
      gives such a list again, holding exactly one more entry. */
  lemma {:induction false} InsertNewestFirstCorrect(s: seq<Entry>, e: Entry)
    requires NewestFirst(s) && DistinctIds(s) && e.id !in Ids(s)
    ensures NewestFirst(InsertNewestFirst(s, e))
    ensures DistinctIds(InsertNewestFirst(s, e))
    ensures multiset(InsertNewestFirst(s, e)) == multiset(s) + multiset{e}
    ensures Ids(InsertNewestFirst(s, e)) == Ids(s) + {e.id}
  {
    InsertNewestFirstElements(s, e);
    IdsOfMembers(InsertNewestFirst(s, e), s, e);
    if s == [] || s[0].row.createdAt <= e.row.createdAt {
      InsertInFront(s, e);
    } else {
      var tail := s[1..];
      assert NewestFirst(tail) && DistinctIds(tail);
      assert Ids(tail) <= Ids(s) by {
        forall x | x in tail ensures x in s { }
      }
      InsertNewestFirstCorrect(tail, e);
      InsertBehind(s, e, InsertNewestFirst(tail, e));
    }
  }

  /** A list without repeated ids has one entry per id. */
  lemma {:induction false} DistinctIdsCount(s: seq<Entry>)
    requires DistinctIds(s)
    ensures |Ids(s)| == |s|
  {
    if s != [] {
      var tail := s[1..];
      assert s == [s[0]] + tail;
      assert DistinctIds(tail) by {
        forall i, j | 0 <= i < j < |tail| ensures tail[i].id != tail[j].id {
          assert tail[i] == s[i + 1] && tail[j] == s[j + 1];
        }
      }
      DistinctIdsCount(tail);
      assert s[0].id !in Ids(tail) by {
        forall x | x in tail ensures x.id != s[0].id {
          var k :| 0 <= k < |tail| && tail[k] == x;
          assert s[k + 1] == x;
        }
      }
      assert Ids(s) == Ids(tail) + {s[0].id} by {
        forall x | x in s ensures x in tail || x == s[0] { }
      }
    }
  }
}
