/** The order in which an image's comments are shown: newest first, as
    `sort((a, b) => new Date(b.date) - new Date(a.date))` leaves them.
    `Array.prototype.sort` is stable, so comments with the same timestamp
    keep their stored order. The sort is modelled as an insertion sort and
    specified independently of it: the result is newest-first and, for every
    timestamp, lists the comments of that timestamp in their original order. */
module CommentOrder {
  import opened Seqs
  import opened Store

  /** No comment is older than one after it. */
  ghost predicate NewestFirst(s: seq<Comment>)
  {
    forall i, j :: 0 <= i < j < |s| ==> s[i].date >= s[j].date
  }

  function DatedAt(d: Timestamp): Comment -> bool
  {
    (c: Comment) => c.date == d
  }

  /** The comments of `s` stamped `d`, in their order in `s`. */
  function OfDate(s: seq<Comment>, d: Timestamp): seq<Comment>
  {
    Filter(s, DatedAt(d))
  }

  /** `r` lists the comments of each timestamp in the order `s` does: what
      a stable sort by timestamp keeps. */
  ghost predicate SameTies(r: seq<Comment>, s: seq<Comment>)
  {
    forall d :: OfDate(r, d) == OfDate(s, d)
  }

  /** Places `c` before the first comment of `s` that is not newer than it. */
  function Insert(c: Comment, s: seq<Comment>): (r: seq<Comment>)
    ensures multiset(r) == multiset(s) + multiset{c}
  {
    if |s| == 0 || s[0].date <= c.date then [c] + s
    else
      assert s == [s[0]] + s[1..];
      [s[0]] + Insert(c, s[1..])
  }

  /** Inserting a comment no newer than `bound` into comments no newer than
      `bound` gives comments no newer than `bound`. */
  lemma InsertBounded(c: Comment, s: seq<Comment>, bound: Timestamp)
    requires c.date <= bound
    requires forall i :: 0 <= i < |s| ==> s[i].date <= bound
    ensures forall j :: 0 <= j < |Insert(c, s)| ==> Insert(c, s)[j].date <= bound
  {
    var t := Insert(c, s);
    forall j | 0 <= j < |t| ensures t[j].date <= bound {
      assert t[j] in multiset(t);
      if t[j] != c {
        assert t[j] in multiset(s);
        var k :| 0 <= k < |s| && s[k] == t[j];
      }
    }
  }

  /** A comment at least as new as every comment of a newest-first
      sequence can go in front of it. */
  lemma PrependNewestFirst(c: Comment, s: seq<Comment>)
    requires NewestFirst(s)
    requires forall i :: 0 <= i < |s| ==> s[i].date <= c.date
    ensures NewestFirst([c] + s)
  {
    var r := [c] + s;
    forall i, j | 0 <= i < j < |r| ensures r[i].date >= r[j].date {
      assert r[j] == s[j - 1];
      if i > 0 {
        assert r[i] == s[i - 1];
      }
    }
  }

  lemma {:induction false} InsertNewestFirst(c: Comment, s: seq<Comment>)
    requires NewestFirst(s)
    ensures NewestFirst(Insert(c, s))
  {
    if |s| > 0 && s[0].date > c.date {
      var t := Insert(c, s[1..]);
      InsertNewestFirst(c, s[1..]);
      InsertBounded(c, s[1..], s[0].date);
      PrependNewestFirst(s[0], t);
      assert Insert(c, s) == [s[0]] + t;
    }
  }

  lemma {:induction false} InsertSameTies(c: Comment, s: seq<Comment>)
    ensures SameTies(Insert(c, s), [c] + s)
  {
    if |s| > 0 && s[0].date > c.date {
      var t := Insert(c, s[1..]);
      assert Insert(c, s) == [s[0]] + t;
      assert s == [s[0]] + s[1..];
      InsertSameTies(c, s[1..]);
      forall d ensures OfDate(Insert(c, s), d) == OfDate([c] + s, d) {
        var keep := DatedAt(d);
        assert OfDate(t, d) == OfDate([c] + s[1..], d);
        FilterCons(s[0], t, keep);
        FilterCons(c, s[1..], keep);
        FilterCons(c, s, keep);
        FilterCons(s[0], s[1..], keep);
        if keep(s[0]) {
          assert !keep(c);
        }
      }
    }
  }

  /** The newest-first order of `s`. */
  function Sort(s: seq<Comment>): (r: seq<Comment>)
    ensures multiset(r) == multiset(s)
    ensures NewestFirst(r)
  {
    if |s| == 0 then []
    else
      assert s == [s[0]] + s[1..];
      InsertNewestFirst(s[0], Sort(s[1..]));
      Insert(s[0], Sort(s[1..]))
  }

  /** Sorting keeps the stored order among comments of equal timestamp. */
  lemma {:induction false} SortSameTies(s: seq<Comment>)
    ensures SameTies(Sort(s), s)
  {
    if |s| > 0 {
      var t := Sort(s[1..]);
      assert Sort(s) == Insert(s[0], t);
      assert s == [s[0]] + s[1..];
      SortSameTies(s[1..]);
      InsertSameTies(s[0], t);
      forall d ensures OfDate(Sort(s), d) == OfDate(s, d) {
        assert OfDate(Insert(s[0], t), d) == OfDate([s[0]] + t, d);
        assert OfDate(t, d) == OfDate(s[1..], d);
        FilterCons(s[0], t, DatedAt(d));
        FilterCons(s[0], s[1..], DatedAt(d));
      }
    }
  }

  lemma OfDateHead(s: seq<Comment>, d: Timestamp)
    requires |s| > 0
    ensures OfDate(s, d) == (if s[0].date == d then [s[0]] else []) + OfDate(s[1..], d)
  {
  }

  /** A comment of `a` is a comment of every `b` that agrees with `a` on
      the order within each timestamp. */
  lemma SameTiesMember(a: seq<Comment>, b: seq<Comment>, k: nat)
    requires SameTies(a, b) && k < |a|
    ensures a[k] in b
  {
    FilterMembers(a, DatedAt(a[k].date));
    FilterMembers(b, DatedAt(a[k].date));
    assert a[k] in OfDate(a, a[k].date);
    assert OfDate(a, a[k].date) == OfDate(b, a[k].date);
  }

  /** The head of a newest-first sequence is at least as new as any of
      its members. */
  lemma HeadIsNewest(b: seq<Comment>, x: Comment)
    requires NewestFirst(b) && x in b
    ensures x.date <= b[0].date
  {
    var k :| 0 <= k < |b| && b[k] == x;
    if k > 0 {
      assert b[0].date >= b[k].date;
    }
  }

  lemma NewestFirstHeads(a: seq<Comment>, b: seq<Comment>)
    requires NewestFirst(a) && NewestFirst(b) && SameTies(a, b)
    requires |a| > 0 && |b| > 0
    ensures a[0] == b[0]
  {
    SameTiesMember(a, b, 0);
    HeadIsNewest(b, a[0]);
    SameTiesMember(b, a, 0);
    HeadIsNewest(a, b[0]);
    var d := a[0].date;
    OfDateHead(a, d);
    OfDateHead(b, d);
    var fa, fb := OfDate(a, d), OfDate(b, d);
    assert fa == fb;
    assert fa[0] == a[0];
    assert fb[0] == b[0];
  }

  lemma SameTiesTails(a: seq<Comment>, b: seq<Comment>)
    requires SameTies(a, b)
    requires |a| > 0 && |b| > 0 && a[0] == b[0]
    ensures SameTies(a[1..], b[1..])
  {
    forall d ensures OfDate(a[1..], d) == OfDate(b[1..], d) {
      OfDateHead(a, d);
      OfDateHead(b, d);
      var fa, fb := OfDate(a, d), OfDate(b, d);
      assert fa == fb;
      if a[0].date == d {
        assert fa[1..] == OfDate(a[1..], d);
        assert fb[1..] == OfDate(b[1..], d);
      }
    }
  }

  /** Two newest-first sequences that agree on the order within every
      timestamp are equal. */
  lemma {:induction false} NewestFirstUnique(a: seq<Comment>, b: seq<Comment>)
    requires NewestFirst(a) && NewestFirst(b)
    requires SameTies(a, b)
    ensures a == b
    decreases |a|
  {
    if |a| > 0 && |b| == 0 {
      SameTiesMember(a, b, 0);
    } else if |b| > 0 && |a| == 0 {
      SameTiesMember(b, a, 0);
    } else if |a| > 0 {
      NewestFirstHeads(a, b);
      SameTiesTails(a, b);
      NewestFirstUnique(a[1..], b[1..]);
      assert a == [a[0]] + a[1..];
      assert b == [b[0]] + b[1..];
    }
  }

  /** `Sort` is the stable newest-first sort: any newest-first arrangement
      that keeps the stored order within each timestamp is its result. */
  lemma SortIsStableSort(s: seq<Comment>, r: seq<Comment>)
    requires NewestFirst(r) && SameTies(r, s)
    ensures Sort(s) == r
  {
    SortSameTies(s);
    NewestFirstUnique(Sort(s), r);
  }

  /** A comment newer than all of `s`, appended to it, sorts to the front. */
  lemma SortAppendNewest(s: seq<Comment>, c: Comment)
    requires forall x :: x in s ==> x.date < c.date
    ensures Sort(s + [c]) == [c] + Sort(s)
  {
    var sorted := Sort(s);
    var cand := [c] + sorted;
    forall i | 0 <= i < |sorted| ensures sorted[i].date <= c.date {
      assert sorted[i] in multiset(sorted);
    }
    PrependNewestFirst(c, sorted);
    SortSameTies(s);
    forall d ensures OfDate(cand, d) == OfDate(s + [c], d) {
      FilterCons(c, sorted, DatedAt(d));
      FilterConcat(s, [c], DatedAt(d));
      FilterCons(c, [], DatedAt(d));
      assert OfDate(sorted, d) == OfDate(s, d);
      if d == c.date {
        FilterDropsAll(s, DatedAt(d));
      }
    }
    SortIsStableSort(s + [c], cand);
  }
}
