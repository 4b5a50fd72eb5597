/**
 * The generic entity service: keyset-paginated reads (findAll, findAllBy), the
 * point lookup findById, and the writes persist and merge, over an in-memory
 * table standing for the relational store.
 */
module BaseEntityService {
  import opened JavaLang

  /** An entity: its id attribute and the rest of its state. */
  datatype Entity<A> = Entity(id: int, attributes: A)

  /** Every row is filed under its own id. */
  predicate WellKeyed<A>(rows: map<int, Entity<A>>) {
    forall k :: k in rows ==> rows[k].id == k
  }

  /** One table of the store, keyed by id: ids are unique and totally ordered. */
  type Table<!A> = rows: map<int, Entity<A>> | WellKeyed(rows) witness map[]

  /** What the idExpressionMapper argument selects: the id attribute of the query
      root. Only whether the mapper is null is modelled. */
  datatype IdMapper = IdAttribute

  // ------------------------------------------------------ ascending order

  ghost predicate StrictlyAscending(s: seq<int>) {
    forall i, j :: 0 <= i < j < |s| ==> s[i] < s[j]
  }

  /** A non-empty finite set of ids has a least element. */
  lemma {:induction false} HasMinimum(s: set<int>)
    requires s != {}
    ensures exists m :: m in s && forall y :: y in s ==> m <= y
    decreases |s|
  {
    if forall x :: x !in s { assert false; }
    var x :| x in s;
    var rest := s - {x};
    assert s == rest + {x};
    if rest == {} {
      forall y | y in s ensures x <= y { assert y !in rest; }
    } else {
      HasMinimum(rest);
      var m :| m in rest && forall y :: y in rest ==> m <= y;
      MinimumOfInsert(rest, x, m);
    }
  }

  /** Adding one element to a set with least element m leaves the smaller of
      the two as least element. */
  lemma MinimumOfInsert(s: set<int>, x: int, m: int)
    requires m in s && forall y :: y in s ==> m <= y
    ensures exists n :: n in s + {x} && forall y :: y in s + {x} ==> n <= y
  {
    var n := if x < m then x else m;
    assert n in s + {x};
    forall y | y in s + {x} ensures n <= y {
      if y != x { assert y in s; }
    }
  }

  /** The least element of a non-empty finite set of ids. */
  ghost function Min(s: set<int>): (m: int)
    requires s != {}
    ensures m in s && forall y :: y in s ==> m <= y
  {
    HasMinimum(s);
    var m :| m in s && forall y :: y in s ==> m <= y;
    m
  }

  /** The ids of a set in ascending order: ORDER BY id ASC. */
  ghost function Ascending(s: set<int>): (r: seq<int>)
    ensures StrictlyAscending(r)
    ensures forall x :: x in r <==> x in s
    ensures forall i :: 0 <= i < |r| ==> r[i] in s
    decreases |s|
  {
    if s == {} then []
    else
      var m := Min(s);
      var rest := Ascending(s - {m});
      [m] + rest
  }

  /** Two strictly ascending sequences with the same elements are equal. */
  lemma {:induction false} AscendingUnique(a: seq<int>, b: seq<int>)
    requires StrictlyAscending(a) && StrictlyAscending(b)
    requires forall x :: x in a <==> x in b
    ensures a == b
    decreases |a|
  {
    if a != [] { assert a[0] in a; }
    if b != [] { assert b[0] in b; }
    if a != [] && b != [] {
      HeadIsLeast(a);
      HeadIsLeast(b);
      forall x ensures x in a[1..] <==> x in b[1..] {
        if x in a[1..] {
          var i :| 1 <= i < |a| && a[i] == x;
          assert a[0] < x;
          assert x in a;
        }
        if x in b[1..] {
          var i :| 1 <= i < |b| && b[i] == x;
          assert b[0] < x;
          assert x in b;
        }
      }
      AscendingUnique(a[1..], b[1..]);
      assert a == [a[0]] + a[1..];
      assert b == [b[0]] + b[1..];
    }
  }

  /** The head of a strictly ascending sequence is its least element. */
  lemma HeadIsLeast(s: seq<int>)
    requires StrictlyAscending(s) && s != []
    ensures forall x :: x in s ==> s[0] <= x
  {
    forall x | x in s ensures s[0] <= x {
      var i :| 0 <= i < |s| && s[i] == x;
      AscendingMonotone(s, 0, i);
    }
  }

  /** In a strictly ascending sequence the order of elements is the order of positions. */
  lemma AscendingMonotone(s: seq<int>, i: int, j: int)
    requires StrictlyAscending(s) && 0 <= i < |s| && 0 <= j < |s|
    ensures s[i] <= s[j] <==> i <= j
  {
  }

  /** Ascending(s) is the one strictly ascending sequence holding exactly s. */
  lemma AscendingIs(s: set<int>, r: seq<int>)
    requires StrictlyAscending(r)
    requires forall x :: x in r <==> x in s
    ensures Ascending(s) == r
  {
    AscendingUnique(Ascending(s), r);
  }

  // ------------------------------------------------------ rows and pages

  /** The ids in the table greater than the bound: WHERE e.id > bound. */
  ghost function KeysAbove<A>(t: Table<A>, bound: int): (r: set<int>)
    ensures forall k :: k in r <==> k in t && k > bound
  {
    set k | k in t && k > bound
  }

  /** The ids in the table greater than the bound whose attribute equals the
      value: WHERE e.attribute = value AND e.id > bound. */
  ghost function MatchingKeysAbove<A, V>(t: Table<A>, bound: int, attribute: Entity<A> -> V, value: V): (r: set<int>)
    ensures forall k :: k in r <==> k in t && k > bound && attribute(t[k]) == value
  {
    set k | k in t && k > bound && attribute(t[k]) == value
  }

  /** The first n elements, or all of them when there are fewer: setMaxResults(n). */
  function Take<T>(s: seq<T>, n: nat): (r: seq<T>)
    ensures r <= s
    ensures |r| == if |s| <= n then |s| else n
  {
    if |s| <= n then s else s[..n]
  }

  /** The rows with the given ids, in that order. */
  function Rows<A>(t: Table<A>, ids: seq<int>): (r: seq<Entity<A>>)
    requires forall i :: 0 <= i < |ids| ==> ids[i] in t
    ensures |r| == |ids|
    ensures forall i :: 0 <= i < |r| ==> r[i] == t[ids[i]] && r[i].id == ids[i]
  {
    if ids == [] then [] else [t[ids[0]]] + Rows(t, ids[1..])
  }

  /** The ids of a page, in order. */
  function Ids<A>(page: seq<Entity<A>>): (r: seq<int>)
    ensures |r| == |page|
    ensures forall i :: 0 <= i < |r| ==> r[i] == page[i].id
  {
    if page == [] then [] else [page[0].id] + Ids(page[1..])
  }

  /** Every id of the given set up to the last one on a full page, or every id
      at all when the page is not full, is on the page. */
  ghost predicate NoneSkipped(ids: set<int>, front: seq<int>, maxResults: int) {
    forall k :: k in ids && (|front| < maxResults || (front != [] && k <= front[|front| - 1])) ==> k in front
  }

  /** The first maxResults of an ascending sequence are ascending and skip nothing. */
  lemma FrontOfAscending(ids: set<int>, maxResults: int)
    requires maxResults > 0
    ensures StrictlyAscending(Take(Ascending(ids), maxResults))
    ensures NoneSkipped(ids, Take(Ascending(ids), maxResults), maxResults)
  {
    var all := Ascending(ids);
    var front := Take(all, maxResults);
    if |all| <= maxResults {
      assert front == all;
    } else {
      assert front == all[..maxResults] && |front| == maxResults;
      forall k | k in ids && k <= front[maxResults - 1] ensures k in front {
        assert k in all;
        var i :| 0 <= i < |all| && all[i] == k;
        AscendingMonotone(all, i, maxResults - 1);
        assert front[i] == k;
      }
    }
  }

  /** The front of the ascending order of ids drawn from the table lies in the table. */
  lemma FrontInTable<A>(t: Table<A>, ids: set<int>, maxResults: int)
    requires maxResults > 0
    requires forall k :: k in ids ==> k in t
    ensures var front := Take(Ascending(ids), maxResults);
      forall i :: 0 <= i < |front| ==> front[i] in ids && front[i] in t
  {
    var all := Ascending(ids);
    var front := Take(all, maxResults);
    forall i | 0 <= i < |front| ensures front[i] in ids && front[i] in t {
      assert front[i] == all[i] && all[i] in all;
    }
  }

  /** The page of rows of the given ids taken from the front of their ascending
      order, at most maxResults of them. */
  ghost function PageOf<A>(t: Table<A>, ids: set<int>, maxResults: int): (page: seq<Entity<A>>)
    requires maxResults > 0
    requires forall k :: k in ids ==> k in t
    ensures Ids(page) == Take(Ascending(ids), maxResults)
    ensures |page| <= maxResults
    ensures forall i :: 0 <= i < |page| ==> page[i].id in ids && page[i].id in t && t[page[i].id] == page[i]
    ensures StrictlyAscending(Ids(page))
    ensures NoneSkipped(ids, Ids(page), maxResults)
  {
    FrontInTable(t, ids, maxResults);
    FrontOfAscending(ids, maxResults);
    RowsOfFront(t, ids, Take(Ascending(ids), maxResults));
    Rows(t, Take(Ascending(ids), maxResults))
  }

  /** The rows of ids drawn from the table carry exactly those ids, each the
      table's own row. */
  lemma RowsOfFront<A>(t: Table<A>, ids: set<int>, front: seq<int>)
    requires forall i :: 0 <= i < |front| ==> front[i] in ids && front[i] in t
    ensures Ids(Rows(t, front)) == front
    ensures forall i :: 0 <= i < |Rows(t, front)| ==>
      Rows(t, front)[i].id in ids && Rows(t, front)[i].id in t && t[Rows(t, front)[i].id] == Rows(t, front)[i]
  {
    var page := Rows(t, front);
    assert Ids(page) == front;
  }

  /** A page is the rows of the front of the ascending order of its ids. */
  lemma PageOfIs<A>(t: Table<A>, ids: set<int>, maxResults: int, r: seq<int>)
    requires maxResults > 0
    requires forall k :: k in ids ==> k in t
    requires Ascending(ids) == r
    ensures forall i :: 0 <= i < |Take(r, maxResults)| ==> Take(r, maxResults)[i] in t
    ensures PageOf(t, ids, maxResults) == Rows(t, Take(r, maxResults))
  {
    var page := PageOf(t, ids, maxResults);
    var front := Take(r, maxResults);
    assert Ids(page) == front;
    forall i | 0 <= i < |front| ensures front[i] in t {
      assert front[i] == r[i] && r[i] in ids;
    }
    var rows := Rows(t, front);
    assert |page| == |rows|;
    forall i | 0 <= i < |page| ensures page[i] == rows[i] {
      assert page[i].id == front[i];
    }
  }

  // ------------------------------------------------------ the service queries

  /** findAll: the entities with id > idValueMinExclusive, ordered by id
      ascending, at most maxResults of them. A null mapper or bound throws
      NullPointerException before the store is read. */
  ghost function FindAll<A>(t: Table<A>, idExpressionMapper: Option<IdMapper>, idValueMinExclusive: Option<int>,
                            maxResults: int): (r: Result<seq<Entity<A>>>)
    requires maxResults > 0
    ensures r.Throws? <==> idExpressionMapper.None? || idValueMinExclusive.None?
    ensures r.Throws? ==> r.exception == NullPointerException
    ensures r.Ok? ==> |r.value| <= maxResults
    ensures r.Ok? ==> forall i :: 0 <= i < |r.value| ==>
      r.value[i].id > idValueMinExclusive.value && r.value[i].id in t && t[r.value[i].id] == r.value[i]
    ensures r.Ok? ==> StrictlyAscending(Ids(r.value))
    ensures r.Ok? ==> NoneSkipped(KeysAbove(t, idValueMinExclusive.value), Ids(r.value), maxResults)
  {
    if idExpressionMapper.None? || idValueMinExclusive.None? then Throws(NullPointerException)
    else Ok(PageOf(t, KeysAbove(t, idValueMinExclusive.value), maxResults))
  }

  /** findAllBy: as findAll, restricted to the entities whose attribute equals
      attributeValue. */
  ghost function FindAllBy<A, V>(t: Table<A>, idExpressionMapper: Option<IdMapper>, idValueMinExclusive: Option<int>,
                                 maxResults: int, attributeExpressionMapper: Option<Entity<A> -> V>,
                                 attributeValue: V): (r: Result<seq<Entity<A>>>)
    requires maxResults > 0
    ensures r.Throws? <==> idExpressionMapper.None? || idValueMinExclusive.None? || attributeExpressionMapper.None?
    ensures r.Throws? ==> r.exception == NullPointerException
    ensures r.Ok? ==> |r.value| <= maxResults
    ensures r.Ok? ==> forall i :: 0 <= i < |r.value| ==>
      r.value[i].id > idValueMinExclusive.value && r.value[i].id in t && t[r.value[i].id] == r.value[i] &&
      attributeExpressionMapper.value(r.value[i]) == attributeValue
    ensures r.Ok? ==> StrictlyAscending(Ids(r.value))
    ensures r.Ok? ==> NoneSkipped(MatchingKeysAbove(t, idValueMinExclusive.value, attributeExpressionMapper.value,
                                                    attributeValue), Ids(r.value), maxResults)
  {
    if idExpressionMapper.None? || idValueMinExclusive.None? || attributeExpressionMapper.None? then
      Throws(NullPointerException)
    else
      Ok(PageOf(t, MatchingKeysAbove(t, idValueMinExclusive.value, attributeExpressionMapper.value, attributeValue),
                maxResults))
  }

  /** findById: the entity with that id, or empty when there is none; a null id
      throws NullPointerException. */
  function FindById<A>(t: Table<A>, id: Option<int>): (r: Result<Option<Entity<A>>>)
    ensures id.None? <==> r.Throws?
    ensures r.Throws? ==> r.exception == NullPointerException
    ensures r.Ok? ==> (r.value.Some? <==> id.value in t)
    ensures r.Ok? && r.value.Some? ==> r.value.value.id == id.value && t[id.value] == r.value.value
  {
    match id
    case None => Throws(NullPointerException)
    case Some(k) => Ok(if k in t then Some(t[k]) else None)
  }

  // ------------------------------------------------------ filtering and pagination

  /** Keeps the ids whose row's attribute equals the value, in order. */
  ghost function FilterIds<A, V>(t: Table<A>, ids: seq<int>, attribute: Entity<A> -> V, value: V): (r: seq<int>)
    requires forall i :: 0 <= i < |ids| ==> ids[i] in t
    ensures forall x :: x in r <==> x in ids && attribute(t[x]) == value
    ensures StrictlyAscending(ids) ==> StrictlyAscending(r)
  {
    if ids == [] then []
    else
      var rest := FilterIds(t, ids[1..], attribute, value);
      if attribute(t[ids[0]]) == value then
        var r := [ids[0]] + rest;
        assert StrictlyAscending(ids) ==> StrictlyAscending(r) by {
          if StrictlyAscending(ids) {
            forall x | x in rest ensures ids[0] < x {
              var i :| 1 <= i < |ids| && ids[i] == x;
            }
            forall i, j | 0 <= i < j < |r| ensures r[i] < r[j] {
              assert r[j] == rest[j - 1] && rest[j - 1] in rest;
              if i > 0 { assert r[i] == rest[i - 1]; }
            }
          }
        }
        r
      else rest
  }

  /** The filtered query reads the same rows as filtering the unfiltered order:
      findAllBy is the first maxResults of the ascending rows above the bound
      whose attribute matches. */
  lemma FindAllByIsFilteredOrder<A, V>(t: Table<A>, bound: int, maxResults: int,
                                       attribute: Entity<A> -> V, value: V)
    requires maxResults > 0
    ensures FindAllBy(t, Some(IdAttribute), Some(bound), maxResults, Some(attribute), value) ==
      Ok(Rows(t, Take(FilterIds(t, Ascending(KeysAbove(t, bound)), attribute, value), maxResults)))
  {
    var filtered := FilterIds(t, Ascending(KeysAbove(t, bound)), attribute, value);
    AscendingIs(MatchingKeysAbove(t, bound, attribute, value), filtered);
    var page := FindAllBy(t, Some(IdAttribute), Some(bound), maxResults, Some(attribute), value).value;
    var expected := Rows(t, Take(filtered, maxResults));
    assert |page| == |expected|;
    forall i | 0 <= i < |page| ensures page[i] == expected[i] {
      assert Ids(page)[i] == page[i].id;
    }
  }

  /** The rows of two id sequences one after the other. */
  lemma RowsAppend<A>(t: Table<A>, a: seq<int>, b: seq<int>)
    requires forall i :: 0 <= i < |a| ==> a[i] in t
    requires forall i :: 0 <= i < |b| ==> b[i] in t
    ensures forall i :: 0 <= i < |a + b| ==> (a + b)[i] in t
    ensures Rows(t, a + b) == Rows(t, a) + Rows(t, b)
  {
    forall i | 0 <= i < |a + b| ensures (a + b)[i] in t {
      if i < |a| { assert (a + b)[i] == a[i]; } else { assert (a + b)[i] == b[i - |a|]; }
    }
    var lhs, rhs := Rows(t, a + b), Rows(t, a) + Rows(t, b);
    assert |lhs| == |rhs|;
    forall i | 0 <= i < |lhs| ensures lhs[i] == rhs[i] {
      if i < |a| { assert (a + b)[i] == a[i]; } else { assert (a + b)[i] == b[i - |a|]; }
    }
  }

  /** The rows of a sequence of ids are the rows of its two halves. */
  lemma RowsSplit<A>(t: Table<A>, ids: seq<int>, n: nat)
    requires forall i :: 0 <= i < |ids| ==> ids[i] in t
    requires n <= |ids|
    ensures Rows(t, ids) == Rows(t, ids[..n]) + Rows(t, ids[n..])
  {
    assert ids == ids[..n] + ids[n..];
    RowsAppend(t, ids[..n], ids[n..]);
  }

  /** Raising the bound past an id present above the old bound removes at least that id. */
  lemma KeysAboveShrink<A>(t: Table<A>, bound: int, last: int)
    requires last in t && last > bound
    ensures |KeysAbove(t, last)| < |KeysAbove(t, bound)|
  {
    var small, large := KeysAbove(t, last), KeysAbove(t, bound);
    assert small <= large - {last};
    SubsetSize(small, large - {last});
  }

  lemma {:induction false} SubsetSize(a: set<int>, b: set<int>)
    requires a <= b
    ensures |a| <= |b|
    decreases |b|
  {
    if b != {} {
      if forall x :: x !in b { assert false; }
      var x :| x in b;
      SubsetSize(a - {x}, b - {x});
    }
  }

  /** The pages of repeated findAll calls, each bounded by the last id of the
      one before, until a page comes back empty. */
  ghost function Pages<A>(t: Table<A>, bound: int, maxResults: int): seq<Entity<A>>
    requires maxResults > 0
    decreases |KeysAbove(t, bound)|
  {
    var page := FindAll(t, Some(IdAttribute), Some(bound), maxResults).value;
    if page == [] then []
    else
      var last := page[|page| - 1].id;
      assert page[|page| - 1] in page;
      KeysAboveShrink(t, bound, last);
      page + Pages(t, last, maxResults)
  }

  /** After a page of n ids, the ids above its last one are the rest of the order. */
  lemma AscendingAfter<A>(t: Table<A>, bound: int, n: nat)
    requires 0 < n <= |Ascending(KeysAbove(t, bound))|
    ensures var all := Ascending(KeysAbove(t, bound));
      Ascending(KeysAbove(t, all[n - 1])) == all[n..]
  {
    var keys := KeysAbove(t, bound);
    var all := Ascending(keys);
    var last := all[n - 1];
    assert last in keys;
    SuffixAbove(all, keys, n);
    forall x ensures x in all[n..] <==> x in KeysAbove(t, last) {
    }
    AscendingIs(KeysAbove(t, last), all[n..]);
  }

  /** The elements after the first n of a strictly ascending enumeration of s
      are the elements of s above the n-th, still strictly ascending. */
  lemma SuffixAbove(all: seq<int>, s: set<int>, n: nat)
    requires StrictlyAscending(all) && forall x :: x in all <==> x in s
    requires 0 < n <= |all|
    ensures StrictlyAscending(all[n..])
    ensures forall x :: x in all[n..] <==> x in s && x > all[n - 1]
  {
    var rest := all[n..];
    forall x ensures x in rest <==> x in s && x > all[n - 1] {
      if x in rest {
        var i :| 0 <= i < |rest| && rest[i] == x;
        assert all[n + i] == x && all[n - 1] < all[n + i];
        assert x in all;
      }
      if x in s && x > all[n - 1] {
        assert x in all;
        var i :| 0 <= i < |all| && all[i] == x;
        AscendingMonotone(all, i, n - 1);
        assert x == rest[i - n];
      }
    }
    forall i, j | 0 <= i < j < |rest| ensures rest[i] < rest[j] {
      assert rest[i] == all[n + i] && rest[j] == all[n + j];
    }
  }

  lemma FindAllValue<A>(t: Table<A>, bound: int, maxResults: int)
    requires maxResults > 0
    ensures FindAll(t, Some(IdAttribute), Some(bound), maxResults) ==
      Ok(PageOf(t, KeysAbove(t, bound), maxResults))
  {
  }

  lemma FindAllByValue<A, V>(t: Table<A>, bound: int, maxResults: int, attribute: Entity<A> -> V, value: V)
    requires maxResults > 0
    ensures FindAllBy(t, Some(IdAttribute), Some(bound), maxResults, Some(attribute), value) ==
      Ok(PageOf(t, MatchingKeysAbove(t, bound, attribute, value), maxResults))
  {
  }

  /** One step of the paging: the first page, then the pages above its last id. */
  lemma PagesStep<A>(t: Table<A>, bound: int, maxResults: int)
    requires maxResults > 0
    ensures var front := Take(Ascending(KeysAbove(t, bound)), maxResults);
      && (forall i :: 0 <= i < |front| ==> front[i] in t && front[i] > bound)
      && Pages(t, bound, maxResults) ==
        if front == [] then [] else Rows(t, front) + Pages(t, front[|front| - 1], maxResults)
  {
    var keys := KeysAbove(t, bound);
    var front := Take(Ascending(keys), maxResults);
    FrontInTable(t, keys, maxResults);
    FindAllValue(t, bound, maxResults);
    var page := PageOf(t, keys, maxResults);
    assert page == Rows(t, front);
    if front != [] {
      assert page[|page| - 1].id == front[|front| - 1];
    }
  }

  /** The ascending rows above the bound are the first page followed by the
      ascending rows above the first page's last id. */
  lemma RowsAfterPage<A>(t: Table<A>, bound: int, maxResults: int)
    requires maxResults > 0
    ensures var all := Ascending(KeysAbove(t, bound));
      var front := Take(all, maxResults);
      && (front == [] ==> all == [])
      && (front != [] ==>
            && front[|front| - 1] in t && front[|front| - 1] > bound
            && Rows(t, all) == Rows(t, front) + Rows(t, Ascending(KeysAbove(t, front[|front| - 1]))))
  {
    var all := Ascending(KeysAbove(t, bound));
    var front := Take(all, maxResults);
    if front != [] {
      assert front == all[..|front|];
      RowsAfterFront(t, bound, |front|);
    }
  }

  /** The ascending rows above the bound split after their first n. */
  lemma RowsAfterFront<A>(t: Table<A>, bound: int, n: nat)
    requires 0 < n <= |Ascending(KeysAbove(t, bound))|
    ensures var all := Ascending(KeysAbove(t, bound));
      && all[n - 1] in t && all[n - 1] > bound
      && Rows(t, all) == Rows(t, all[..n]) + Rows(t, Ascending(KeysAbove(t, all[n - 1])))
  {
    var all := Ascending(KeysAbove(t, bound));
    assert all[n - 1] in KeysAbove(t, bound);
    AscendingAfter(t, bound, n);
    RowsSplit(t, all, n);
  }

  /** Keyset coverage: paging through findAll with the previous page's last id as
      the next bound visits every row above the original bound exactly once, in
      ascending id order. */
  lemma {:induction false} KeysetCoverage<A>(t: Table<A>, bound: int, maxResults: int)
    requires maxResults > 0
    ensures Pages(t, bound, maxResults) == Rows(t, Ascending(KeysAbove(t, bound)))
    decreases |KeysAbove(t, bound)|
  {
    var front := Take(Ascending(KeysAbove(t, bound)), maxResults);
    PagesStep(t, bound, maxResults);
    RowsAfterPage(t, bound, maxResults);
    if front != [] {
      var last := front[|front| - 1];
      KeysAboveShrink(t, bound, last);
      KeysetCoverage(t, last, maxResults);
    }
  }

  // ------------------------------------------------------ the writes

  /** The service over one table of the store. */
  class EntityService<A> {
    var table: Table<A>

    constructor (table: Table<A>)
      ensures this.table == table
    {
      this.table := table;
    }

    /** persist: inserts the entity and returns the very same one; a null entity
        throws NullPointerException, and an id already present violates the key,
        in both cases before anything is written. */
    method Persist(entity: Option<Entity<A>>) returns (r: Result<Entity<A>>)
      modifies this
      ensures entity.None? ==> r == Throws(NullPointerException) && table == old(table)
      ensures entity.Some? && entity.value.id in old(table) ==>
        r == Throws(EntityExistsException) && table == old(table)
      ensures entity.Some? && entity.value.id !in old(table) ==>
        r == Ok(entity.value) && table == old(table)[entity.value.id := entity.value]
    {
      if entity.None? {
        return Throws(NullPointerException);
      }
      var e := entity.value;
      if e.id in table {
        return Throws(EntityExistsException);
      }
      table := table[e.id := e];
      r := Ok(e);
    }

    /** merge: writes the entity's state, inserting or replacing the row with its
        id, and returns the stored representation; a null entity throws
        NullPointerException before anything is written. */
    method Merge(entity: Option<Entity<A>>) returns (r: Result<Entity<A>>)
      modifies this
      ensures entity.None? ==> r == Throws(NullPointerException) && table == old(table)
      ensures entity.Some? ==> table == old(table)[entity.value.id := entity.value]
      ensures entity.Some? ==> r.Ok? && r.value == table[entity.value.id]
    {
      if entity.None? {
        return Throws(NullPointerException);
      }
      var e := entity.value;
      table := table[e.id := e];
      r := Ok(table[e.id]);
    }

    /** findById against the current table. */
    method FindByIdNow(id: Option<int>) returns (r: Result<Option<Entity<A>>>)
      ensures r == FindById(table, id)
    {
      r := FindById(table, id);
    }
  }

  /** After a successful persist, findById finds the persisted entity. */
  method PersistThenFind<A>(service: EntityService<A>, entity: Entity<A>)
    returns (persisted: Result<Entity<A>>, found: Result<Option<Entity<A>>>)
    modifies service
    ensures persisted.Ok? ==> found == Ok(Some(entity))
    ensures persisted.Throws? ==> found == FindById(old(service.table), Some(entity.id))
  {
    persisted := service.Persist(Some(entity));
    found := service.FindByIdNow(Some(entity.id));
  }

  // ------------------------------------------------------ worked examples

  /** A table of rows with ids 10, 20, 30 and 40. */
  function Decades<A>(a: A): (t: Table<A>)
    ensures t.Keys == {10, 20, 30, 40}
  {
    map[10 := Entity(10, a), 20 := Entity(20, a), 30 := Entity(30, a), 40 := Entity(40, a)]
  }

  /** Over ids 10, 20, 30, 40, findAll above 15 with at most 2 results reads 20
      and 30. */
  lemma FindAllFirstPageExample<A>(a: A)
    ensures FindAll(Decades(a), Some(IdAttribute), Some(15), 2) == Ok([Entity(20, a), Entity(30, a)])
  {
    var t := Decades(a);
    DecadesAbove(a);
    FindAllValue(t, 15, 2);
    DecadesFirstPage(a);
    DecadesRows(a);
  }

  lemma DecadesAbove<A>(a: A)
    ensures KeysAbove(Decades(a), 15) == {20, 30, 40}
    ensures KeysAbove(Decades(a), 30) == {40}
  {
  }

  lemma DecadesFirstPage<A>(a: A)
    ensures PageOf(Decades(a), {20, 30, 40}, 2) == Rows(Decades(a), [20, 30])
  {
    var t := Decades(a);
    AscendingIs({20, 30, 40}, [20, 30, 40]);
    PageOfIs(t, {20, 30, 40}, 2, [20, 30, 40]);
    assert Take([20, 30, 40], 2) == [20, 30];
  }

  lemma DecadesRows<A>(a: A)
    ensures Rows(Decades(a), [20, 30]) == [Entity(20, a), Entity(30, a)]
    ensures Rows(Decades(a), [40]) == [Entity(40, a)]
  {
    var r := Rows(Decades(a), [20, 30]);
    assert r[0] == Entity(20, a) && r[1] == Entity(30, a);
  }

  /** The next page, above 30, reads 40 alone. */
  lemma FindAllNextPageExample<A>(a: A)
    ensures FindAll(Decades(a), Some(IdAttribute), Some(30), 2) == Ok([Entity(40, a)])
  {
    var t := Decades(a);
    DecadesAbove(a);
    AscendingIs({40}, [40]);
    FindAllValue(t, 30, 2);
    PageOfIs(t, {40}, 2, [40]);
    DecadesRows(a);
  }

  /** A table of rows 1..5 with attributes A, B, A, B, A. */
  function Alternating(): (t: Table<char>)
    ensures t.Keys == {1, 2, 3, 4, 5}
  {
    map[1 := Entity(1, 'A'), 2 := Entity(2, 'B'), 3 := Entity(3, 'A'), 4 := Entity(4, 'B'), 5 := Entity(5, 'A')]
  }

  function Attributes(e: Entity<char>): char {
    e.attributes
  }

  /** Among rows 1..5 with attributes A, B, A, B, A, those with A are 1, 3 and 5. */
  lemma AlternatingMatches()
    ensures MatchingKeysAbove(Alternating(), 0, Attributes, 'A') == {1, 3, 5}
  {
    var t := Alternating();
    assert t[2].attributes == 'B' && t[4].attributes == 'B';
  }

  lemma OddAscending()
    ensures Ascending({1, 3, 5}) == [1, 3, 5]
  {
    AscendingIs({1, 3, 5}, [1, 3, 5]);
  }

  /** findAllBy above 0, at most 10, for attribute A reads rows 1, 3 and 5 in
      that order. */
  lemma FindAllByExample()
    ensures FindAllBy(Alternating(), Some(IdAttribute), Some(0), 10, Some(Attributes), 'A') ==
      Ok([Entity(1, 'A'), Entity(3, 'A'), Entity(5, 'A')])
  {
    var t := Alternating();
    AlternatingMatches();
    FindAllByValue(t, 0, 10, Attributes, 'A');
    OddAscending();
    OddRows();
  }

  /** The rows 1, 3 and 5 of the alternating table. */
  lemma OddRows()
    ensures PageOf(Alternating(), {1, 3, 5}, 10) == [Entity(1, 'A'), Entity(3, 'A'), Entity(5, 'A')]
  {
    var t := Alternating();
    OddAscending();
    PageOfIs(t, {1, 3, 5}, 10, [1, 3, 5]);
    assert Take([1, 3, 5], 10) == [1, 3, 5];
    RowsOfOdd();
  }

  lemma RowsOfOdd()
    ensures Rows(Alternating(), [1, 3, 5]) == [Entity(1, 'A'), Entity(3, 'A'), Entity(5, 'A')]
  {
    var r := Rows(Alternating(), [1, 3, 5]);
    assert r[0] == Entity(1, 'A') && r[1] == Entity(3, 'A') && r[2] == Entity(5, 'A');
  }
}
