/** Listing questions (`getQuestions`): filter the questions a reader sees,
    optionally order them by one field, then cut out one page. The total is
    the number of matching questions, whatever the page. */
module Listing {
  import opened Wrappers
  import opened Records
  import opened Db

  datatype OrderBy = ByViews | ByScore | ByAnswersCount | ByCreated | ByUpdated
  datatype Order = Desc | Asc

  /** The deterministic listing options. An omitted boolean flag is `false`. */
  datatype QuestionsOptions = QuestionsOptions(
    limit: Option<nat>,
    offset: Option<nat>,
    author: Option<string>,
    orderBy: Option<OrderBy>,
    order: Option<Order>,
    noCorrectAnswer: bool,
    noAnswers: bool,
    noVotes: bool,
    favorite: bool,
    tags: Option<seq<string>>,
    entity: Option<string>)

  /** One page of questions and the number of questions matching the filter. */
  datatype Questions = Questions(questions: seq<Question>, total: nat)

  /** Does question `q` (as its reader sees it) pass every filter in `o`? */
  predicate Matches(q: Question, o: QuestionsOptions)
  {
    && (o.author.Some? ==> q.author == o.author.value)
    && (o.noCorrectAnswer ==> !q.correctAnswer)
    && (o.noAnswers ==> q.answersCount == 0)
    && (o.noVotes ==> q.votes == {})
    && (o.favorite ==> q.favorite)
    && (o.tags.Some? ==> exists t :: t in o.tags.value && t in q.tags)
    && (o.entity.Some? ==> o.entity.value in q.entities)
  }

  /** `Matches` for the options `o`, as a test on questions. */
  function Keep(o: QuestionsOptions): Question -> bool
  {
    q => Matches(q, o)
  }

  // -----------------------------------------------------------------------
  // Generic list operations

  /** The elements of `s` that pass `keep`, in the order of `s`. */
  function FilterBy<X(!new)>(s: seq<X>, keep: X -> bool): (r: seq<X>)
    ensures forall x :: x in r <==> x in s && keep(x)
    ensures |r| <= |s|
    ensures multiset(r) <= multiset(s)
  {
    if s == [] then []
    else
      assert s == [s[0]] + s[1..];
      (if keep(s[0]) then [s[0]] else []) + FilterBy(s[1..], keep)
  }

  /** Each element ranks no higher than the next one. */
  predicate SortedOn<X>(s: seq<X>, rank: X -> int)
  {
    forall i :: 0 <= i < |s| - 1 ==> rank(s[i]) <= rank(s[i + 1])
  }

  /** Each element ranks no higher than every later one. */
  predicate Ascending<X>(s: seq<X>, rank: X -> int)
  {
    forall i, j :: 0 <= i < j < |s| ==> rank(s[i]) <= rank(s[j])
  }

  lemma {:induction false} SortedOnAscending<X>(s: seq<X>, rank: X -> int)
    requires SortedOn(s, rank)
    ensures Ascending(s, rank)
  {
    if |s| > 1 {
      var tail := s[1..];
      assert SortedOn(tail, rank) by {
        forall i | 0 <= i < |tail| - 1 ensures rank(tail[i]) <= rank(tail[i + 1]) {
          assert tail[i] == s[i + 1] && tail[i + 1] == s[i + 2];
        }
      }
      SortedOnAscending(tail, rank);
      forall i, j | 0 <= i < j < |s| ensures rank(s[i]) <= rank(s[j]) {
        assert s[j] == tail[j - 1];
        if i > 0 {
          assert s[i] == tail[i - 1];
        } else if j > 1 {
          assert rank(tail[0]) <= rank(tail[j - 1]);
        }
      }
    }
  }

  /** Inserts `x` into an ordered list, before the first element it does not outrank. */
  function InsertBy<X>(x: X, s: seq<X>, rank: X -> int): (r: seq<X>)
    requires SortedOn(s, rank)
    ensures SortedOn(r, rank)
    ensures multiset(r) == multiset(s) + multiset{x}
    ensures r[0] == x || (s != [] && r[0] == s[0])
  {
    if s == [] then [x]
    else if rank(x) <= rank(s[0]) then [x] + s
    else
      var tail := InsertBy(x, s[1..], rank);
      assert s == [s[0]] + s[1..];
      assert |s| > 1 ==> s[1..][0] == s[1];
      [s[0]] + tail
  }

  /** Insertion sort: the same elements, by non-decreasing rank; equal ranks
      keep their order. */
  function SortBy<X>(s: seq<X>, rank: X -> int): (r: seq<X>)
    ensures SortedOn(r, rank)
    ensures multiset(r) == multiset(s)
  {
    if s == [] then []
    else
      assert s == [s[0]] + s[1..];
      InsertBy(s[0], SortBy(s[1..], rank), rank)
  }

  /** Lists with the same multiset have the same length and the same members. */
  lemma SameElements<X>(a: seq<X>, b: seq<X>)
    requires multiset(a) == multiset(b)
    ensures |a| == |b|
    ensures forall x :: x in a <==> x in b
  {
    assert |a| == |multiset(a)|;
    assert |b| == |multiset(b)|;
    assert forall x :: x in a <==> x in multiset(a);
    assert forall x :: x in b <==> x in multiset(b);
  }

  /** No element occurs twice in `s`. */
  ghost predicate Distinct<X(!new)>(s: seq<X>)
  {
    forall x :: multiset(s)[x] <= 1
  }

  /** In a list without repeats, elements at different positions differ. */
  lemma DistinctPositions<X(!new)>(s: seq<X>)
    requires Distinct(s)
    ensures forall i, j :: 0 <= i < j < |s| ==> s[i] != s[j]
  {
    forall i, j | 0 <= i < j < |s| ensures s[i] != s[j] {
      assert s == s[..j] + s[j..];
      assert s[..j][i] == s[i];
      assert s[j..][0] == s[j];
      assert multiset(s)[s[j]] == multiset(s[..j])[s[j]] + multiset(s[j..])[s[j]];
    }
  }

  /** The ids along `s` strictly increase. */
  predicate IdsIncrease<X>(s: seq<X>, idOf: X -> nat)
  {
    forall i, j :: 0 <= i < j < |s| ==> idOf(s[i]) < idOf(s[j])
  }

  lemma TailIdsIncrease<X>(s: seq<X>, idOf: X -> nat)
    requires s != [] && IdsIncrease(s, idOf)
    ensures IdsIncrease(s[1..], idOf)
    ensures forall x :: x in s[1..] ==> idOf(s[0]) < idOf(x)
  {
    var rest := s[1..];
    forall i, j | 0 <= i < j < |rest| ensures idOf(rest[i]) < idOf(rest[j]) {
      assert rest[i] == s[i + 1] && rest[j] == s[j + 1];
    }
    forall x | x in rest ensures idOf(s[0]) < idOf(x) {
      var k :| 0 <= k < |rest| && rest[k] == x;
      assert s[k + 1] == x;
    }
  }

  /** A list whose ids strictly increase has no repeats. */
  lemma {:induction false} IncreasingDistinct<X(!new)>(s: seq<X>, idOf: X -> nat)
    requires IdsIncrease(s, idOf)
    ensures Distinct(s)
  {
    if s != [] {
      var rest := s[1..];
      TailIdsIncrease(s, idOf);
      IncreasingDistinct(rest, idOf);
      assert s == [s[0]] + rest;
      assert s[0] !in rest;
      assert multiset(s) == multiset{s[0]} + multiset(rest);
    }
  }

  /** Filtering keeps ids increasing. */
  lemma {:induction false} FilterKeepsIdOrder<X(!new)>(s: seq<X>, idOf: X -> nat, keep: X -> bool)
    requires IdsIncrease(s, idOf)
    ensures IdsIncrease(FilterBy(s, keep), idOf)
  {
    if s != [] {
      var rest := s[1..];
      TailIdsIncrease(s, idOf);
      FilterKeepsIdOrder(rest, idOf, keep);
      var tail, r := FilterBy(rest, keep), FilterBy(s, keep);
      if keep(s[0]) {
        assert r == [s[0]] + tail;
        forall i, j | 0 <= i < j < |r| ensures idOf(r[i]) < idOf(r[j]) {
          assert r[j] == tail[j - 1] && r[j] in rest;
          if i > 0 {
            assert r[i] == tail[i - 1];
          }
        }
      } else {
        assert r == tail;
      }
    }
  }

  /** The elements of `s` from `offset` on, at most `limit` of them. */
  function Page<X>(s: seq<X>, offset: nat, limit: Option<nat>): (r: seq<X>)
  {
    var lo := if offset < |s| then offset else |s|;
    var hi := if limit.Some? && lo + limit.value < |s| then lo + limit.value else |s|;
    s[lo..hi]
  }

  /** A page holds the elements of `s` from `offset` on, in order, as many as
      remain up to `limit`; it keeps the order of `s`. */
  lemma PageSpec<X(!new)>(s: seq<X>, offset: nat, limit: Option<nat>, rank: X -> int)
    ensures var r := Page(s, offset, limit);
      && |r| == (if offset >= |s| then 0
                 else if limit.Some? && limit.value < |s| - offset then limit.value
                 else |s| - offset)
      && (forall i :: 0 <= i < |r| ==> r[i] == s[offset + i])
      && (forall x :: x in r ==> x in s)
      && (Ascending(s, rank) ==> Ascending(r, rank))
  {
    var lo := if offset < |s| then offset else |s|;
    var hi := if limit.Some? && lo + limit.value < |s| then lo + limit.value else |s|;
    var r := Page(s, offset, limit);
    assert r == s[lo..hi];
    forall i | 0 <= i < |r| ensures r[i] == s[offset + i] {
      assert lo == offset;
    }
    forall i, j | 0 <= i < j < |r| && Ascending(s, rank) ensures rank(r[i]) <= rank(r[j]) {
      assert r[i] == s[offset + i] && r[j] == s[offset + j];
    }
  }

  lemma SliceWithin<X>(s: seq<X>, lo: nat, hi: nat)
    requires lo <= hi <= |s|
    ensures multiset(s[lo..hi]) <= multiset(s)
  {
    assert s == s[..lo] + s[lo..hi] + s[hi..];
  }

  lemma SliceIdsIncrease<X>(s: seq<X>, lo: nat, hi: nat, idOf: X -> nat)
    requires lo <= hi <= |s| && IdsIncrease(s, idOf)
    ensures IdsIncrease(s[lo..hi], idOf)
  {
    var r := s[lo..hi];
    forall i, j | 0 <= i < j < |r| ensures idOf(r[i]) < idOf(r[j]) {
      assert r[i] == s[lo + i] && r[j] == s[lo + j];
    }
  }

  /** A page takes no element more often than `s` has it, and keeps ids increasing. */
  lemma PageWithin<X>(s: seq<X>, offset: nat, limit: Option<nat>, idOf: X -> nat)
    ensures multiset(Page(s, offset, limit)) <= multiset(s)
    ensures IdsIncrease(s, idOf) ==> IdsIncrease(Page(s, offset, limit), idOf)
  {
    var lo := if offset < |s| then offset else |s|;
    var hi := if limit.Some? && lo + limit.value < |s| then lo + limit.value else |s|;
    SliceWithin(s, lo, hi);
    if IdsIncrease(s, idOf) {
      SliceIdsIncrease(s, lo, hi, idOf);
    }
  }

  // -----------------------------------------------------------------------
  // Listing questions

  /** The field a listing is ordered by; a question never updated counts as
      updated at time 0. */
  function Key(q: Question, field: OrderBy): int
  {
    match field
    case ByViews => q.views
    case ByScore => q.score
    case ByAnswersCount => q.answersCount
    case ByCreated => q.created
    case ByUpdated => q.updated.GetOr(0)
  }

  /** The position of a question in a listing ordered by `field` in
      direction `dir`: listings are by increasing rank. */
  function Rank(field: OrderBy, dir: Order): Question -> int
  {
    q => if dir == Asc then Key(q, field) else -Key(q, field)
  }

  /** Every question ranks no higher than every later one: by non-increasing
      key when descending, by non-decreasing key when ascending. */
  predicate SortedBy(s: seq<Question>, field: OrderBy, dir: Order)
  {
    forall i, j :: 0 <= i < j < |s| ==>
      if dir == Asc then Key(s[i], field) <= Key(s[j], field) else Key(s[i], field) >= Key(s[j], field)
  }

  lemma AscendingIsSortedBy(s: seq<Question>, field: OrderBy, dir: Order)
    requires Ascending(s, Rank(field, dir))
    ensures SortedBy(s, field, dir)
  {
    forall i, j | 0 <= i < j < |s|
      ensures if dir == Asc then Key(s[i], field) <= Key(s[j], field) else Key(s[i], field) >= Key(s[j], field)
    {
      assert Rank(field, dir)(s[i]) <= Rank(field, dir)(s[j]);
    }
  }

  /** The questions of `s` that match `o`, in the order of `s`. */
  function Filter(s: seq<Question>, o: QuestionsOptions): seq<Question>
  {
    FilterBy(s, Keep(o))
  }

  /** The rank a listing under `o` is ordered by (by the position in the
      source list when no order is asked for). */
  function ListingRank(o: QuestionsOptions): Question -> int
    requires o.orderBy.Some?
  {
    Rank(o.orderBy.value, o.order.GetOr(Desc))
  }

  /** The matching questions in listing order: by the requested field
      (descending unless ascending is asked for), or in the order given. */
  function Ordered(all: seq<Question>, o: QuestionsOptions): (r: seq<Question>)
    ensures |r| == |Filter(all, o)|
    ensures forall q :: q in r <==> q in all && Matches(q, o)
    ensures o.orderBy.Some? ==> Ascending(r, ListingRank(o))
    ensures multiset(r) == multiset(Filter(all, o))
  {
    var matching := Filter(all, o);
    if o.orderBy.None? then matching
    else
      var r := SortBy(matching, ListingRank(o));
      SameElements(r, matching);
      SortedOnAscending(r, ListingRank(o));
      r
  }

  /** A listing: one page of the ordered matching questions, and their total. */
  function ListQuestions(all: seq<Question>, o: QuestionsOptions): Questions
  {
    Questions(Page(Ordered(all, o), o.offset.GetOr(0), o.limit), |Filter(all, o)|)
  }

  /** What a listing promises: a page no longer than the limit, holding only
      matching questions, ordered when an order is asked for, and a total that
      counts every match; the page is as long as the matches left after the
      offset allow. */
  lemma ListQuestionsSpec(all: seq<Question>, o: QuestionsOptions)
    ensures o.limit.Some? ==> |ListQuestions(all, o).questions| <= o.limit.value
    ensures forall q :: q in ListQuestions(all, o).questions ==> q in all && Matches(q, o)
    ensures o.orderBy.Some? ==> SortedBy(ListQuestions(all, o).questions, o.orderBy.value, o.order.GetOr(Desc))
    ensures ListQuestions(all, o).total == |Ordered(all, o)|
    ensures var offset, total := o.offset.GetOr(0), ListQuestions(all, o).total;
      |ListQuestions(all, o).questions|
        == if offset >= total then 0
           else if o.limit.Some? && o.limit.value < total - offset then o.limit.value
           else total - offset
  {
    var ordered := Ordered(all, o);
    var page := Page(ordered, o.offset.GetOr(0), o.limit);
    if o.orderBy.Some? {
      PageSpec(ordered, o.offset.GetOr(0), o.limit, ListingRank(o));
      AscendingIsSortedBy(page, o.orderBy.value, o.order.GetOr(Desc));
    } else {
      PageSpec(ordered, o.offset.GetOr(0), o.limit, (q: Question) => 0);
    }
  }

  // -----------------------------------------------------------------------
  // The questions of a store, as one reader sees them, in id order

  /** Every stored question as `user` sees it, keyed by id. */
  ghost function Views(db: Tables, user: string): map<nat, Question>
  {
    map id | id in db.questions :: QuestionView(db, user, id)
  }

  function QuestionId(q: Question): nat
  {
    q.id
  }

  /** Each question is filed under its own id. */
  predicate KeyedById(m: map<nat, Question>)
  {
    KeyedBy(m, QuestionId)
  }

  /** Each entry of `m` is filed under its own id, as `idOf` reads it. */
  predicate KeyedBy<X>(m: map<nat, X>, idOf: X -> nat)
  {
    forall id :: id in m ==> idOf(m[id]) == id
  }

  /** The entries of `m` with an id below `n`, by increasing id. */
  function InIdOrder<X>(m: map<nat, X>, idOf: X -> nat, n: nat): seq<X>
  {
    if n == 0 then []
    else InIdOrder(m, idOf, n - 1) + (if n - 1 in m then [m[n - 1]] else [])
  }

  /** Every entry listed is an entry of `m` with an id below `n`, filed under its id. */
  lemma {:induction false} InIdOrderEntries<X>(m: map<nat, X>, idOf: X -> nat, n: nat)
    requires KeyedBy(m, idOf)
    ensures forall i :: 0 <= i < |InIdOrder(m, idOf, n)| ==>
      && idOf(InIdOrder(m, idOf, n)[i]) < n
      && idOf(InIdOrder(m, idOf, n)[i]) in m
      && InIdOrder(m, idOf, n)[i] == m[idOf(InIdOrder(m, idOf, n)[i])]
  {
    if n > 0 {
      InIdOrderEntries(m, idOf, n - 1);
      var prev, r := InIdOrder(m, idOf, n - 1), InIdOrder(m, idOf, n);
      forall i | 0 <= i < |r| ensures idOf(r[i]) < n && idOf(r[i]) in m && r[i] == m[idOf(r[i])] {
        if i < |prev| {
          assert r[i] == prev[i];
        } else {
          assert r[i] == m[n - 1] && idOf(m[n - 1]) == n - 1;
        }
      }
    }
  }

  /** The entries are listed by strictly increasing id. */
  lemma {:induction false} InIdOrderIncreasing<X>(m: map<nat, X>, idOf: X -> nat, n: nat)
    requires KeyedBy(m, idOf)
    ensures forall i, j :: 0 <= i < j < |InIdOrder(m, idOf, n)| ==>
      idOf(InIdOrder(m, idOf, n)[i]) < idOf(InIdOrder(m, idOf, n)[j])
  {
    if n > 0 {
      InIdOrderIncreasing(m, idOf, n - 1);
      InIdOrderEntries(m, idOf, n - 1);
      var prev, r := InIdOrder(m, idOf, n - 1), InIdOrder(m, idOf, n);
      forall i, j | 0 <= i < j < |r| ensures idOf(r[i]) < idOf(r[j]) {
        assert r[i] == prev[i];
        if j < |prev| {
          assert r[j] == prev[j];
        } else {
          assert idOf(prev[i]) < n - 1;
        }
      }
    }
  }

  /** Every entry of `m` with an id below `n` is listed. */
  lemma {:induction false} InIdOrderComplete<X>(m: map<nat, X>, idOf: X -> nat, n: nat)
    ensures forall id :: id in m && id < n ==> m[id] in InIdOrder(m, idOf, n)
  {
    if n > 0 {
      InIdOrderComplete(m, idOf, n - 1);
    }
  }

  /** Listing one more id appends that entry, if there is one. */
  lemma InIdOrderNext<X>(m: map<nat, X>, idOf: X -> nat, n: nat)
    requires KeyedBy(m, idOf)
    ensures InIdOrder(m, idOf, n + 1) == InIdOrder(m, idOf, n) + (if n in m then [m[n]] else [])
  {
  }

  /** The stored questions with an id below `n`, as `user` sees them, by
      increasing id. */
  ghost function ViewsBelow(db: Tables, user: string, n: nat): seq<Question>
  {
    if n == 0 then []
    else ViewsBelow(db, user, n - 1) + (if n - 1 in db.questions then [QuestionView(db, user, n - 1)] else [])
  }

  lemma {:induction false} ViewsBelowInIdOrder(db: Tables, user: string, n: nat)
    ensures ViewsBelow(db, user, n) == InIdOrder(Views(db, user), QuestionId, n)
  {
    if n > 0 {
      ViewsBelowInIdOrder(db, user, n - 1);
      InIdOrderNext(Views(db, user), QuestionId, n - 1);
    }
  }

  /** The ids of the elements of `s` that pass `keep`. */
  function IdsIn<X(==,!new)>(s: seq<X>, idOf: X -> nat, keep: X -> bool): set<nat>
  {
    set x | x in s && keep(x) :: idOf(x)
  }

  /** The ids of the entries of `m` that pass `keep`. */
  function KeysWhere<X>(m: map<nat, X>, keep: X -> bool): set<nat>
  {
    set id | id in m && keep(m[id])
  }

  /** The ids passing in a nonempty list: those of its tail, and its head's if it passes. */
  lemma IdsInCons<X(!new)>(s: seq<X>, idOf: X -> nat, keep: X -> bool)
    requires s != []
    ensures IdsIn(s, idOf, keep) == (if keep(s[0]) then {idOf(s[0])} else {}) + IdsIn(s[1..], idOf, keep)
  {
    assert forall x :: x in s <==> x == s[0] || x in s[1..] by {
      assert s == [s[0]] + s[1..];
    }
  }

  /** In a list with increasing ids the head's id is not in the tail. */
  lemma HeadIdFresh<X(!new)>(s: seq<X>, idOf: X -> nat, keep: X -> bool)
    requires s != []
    requires forall i, j :: 0 <= i < j < |s| ==> idOf(s[i]) < idOf(s[j])
    ensures idOf(s[0]) !in IdsIn(s[1..], idOf, keep)
  {
    var rest := s[1..];
    forall x | x in rest ensures idOf(x) != idOf(s[0]) {
      var i :| 0 <= i < |rest| && rest[i] == x;
      assert s[i + 1] == x;
    }
  }

  /** In a list with increasing ids, filtering keeps one element per id that passes. */
  lemma {:induction false} FilterCountsIds<X(!new)>(s: seq<X>, idOf: X -> nat, keep: X -> bool)
    requires forall i, j :: 0 <= i < j < |s| ==> idOf(s[i]) < idOf(s[j])
    ensures |FilterBy(s, keep)| == |IdsIn(s, idOf, keep)|
  {
    if s != [] {
      var rest := s[1..];
      assert forall i, j :: 0 <= i < j < |rest| ==> idOf(rest[i]) < idOf(rest[j]) by {
        forall i, j | 0 <= i < j < |rest| ensures idOf(rest[i]) < idOf(rest[j]) {
          assert rest[i] == s[i + 1] && rest[j] == s[j + 1];
        }
      }
      FilterCountsIds(rest, idOf, keep);
      IdsInCons(s, idOf, keep);
      HeadIdFresh(s, idOf, keep);
    }
  }

  /** Listing every entry of `m` (every id below `n`) and filtering counts
      each entry that passes exactly once. */
  lemma ListingCount<X(!new)>(m: map<nat, X>, idOf: X -> nat, n: nat, keep: X -> bool)
    requires KeyedBy(m, idOf)
    requires forall id :: id in m ==> id < n
    ensures |FilterBy(InIdOrder(m, idOf, n), keep)| == |KeysWhere(m, keep)|
  {
    var all := InIdOrder(m, idOf, n);
    InIdOrderIncreasing(m, idOf, n);
    FilterCountsIds(all, idOf, keep);
    InIdOrderComplete(m, idOf, n);
    forall id | id in KeysWhere(m, keep) ensures id in IdsIn(all, idOf, keep) {
      assert m[id] in all;
    }
    InIdOrderEntries(m, idOf, n);
    forall id | id in IdsIn(all, idOf, keep) ensures id in KeysWhere(m, keep) {
      var x :| x in all && keep(x) && idOf(x) == id;
      var i :| 0 <= i < |all| && all[i] == x;
    }
    assert IdsIn(all, idOf, keep) == KeysWhere(m, keep);
  }

  /** The ids of the questions of `m` that match `o`. */
  function Matching(m: map<nat, Question>, o: QuestionsOptions): set<nat>
  {
    KeysWhere(m, Keep(o))
  }

  /** Each entry listed is the one filed under its id. */
  lemma InIdOrderEntry<X>(m: map<nat, X>, idOf: X -> nat, n: nat, x: X)
    requires KeyedBy(m, idOf)
    requires x in InIdOrder(m, idOf, n)
    ensures idOf(x) in m && x == m[idOf(x)]
  {
    InIdOrderEntries(m, idOf, n);
    var r := InIdOrder(m, idOf, n);
    var i :| 0 <= i < |r| && r[i] == x;
  }

  /** The listing of a whole store: its page holds only matching entries of
      the store, at most `limit` of them, sorted as asked, and its total
      counts every matching entry once. */
  lemma ListingOfStore(m: map<nat, Question>, n: nat, o: QuestionsOptions)
    requires KeyedById(m)
    requires forall id :: id in m ==> id < n
    ensures var r := ListQuestions(InIdOrder(m, QuestionId, n), o);
      && r.total == |Matching(m, o)|
      && (o.limit.Some? ==> |r.questions| <= o.limit.value)
      && (forall q :: q in r.questions ==> q.id in m && q == m[q.id] && Matches(q, o))
      && (o.orderBy.Some? ==> SortedBy(r.questions, o.orderBy.value, o.order.GetOr(Desc)))
      && (o.orderBy.None? ==> forall i, j :: 0 <= i < j < |r.questions| ==> r.questions[i].id < r.questions[j].id)
      && (forall i, j :: 0 <= i < j < |r.questions| ==> r.questions[i].id != r.questions[j].id)
      && (o.offset.GetOr(0) == 0 && (o.limit.None? || r.total <= o.limit.value) ==>
            forall id :: id in Matching(m, o) ==> m[id] in r.questions)
  {
    var all := InIdOrder(m, QuestionId, n);
    ListQuestionsSpec(all, o);
    ListingCount(m, QuestionId, n, Keep(o));
    forall q | q in ListQuestions(all, o).questions ensures q.id in m && q == m[q.id] {
      InIdOrderEntry(m, QuestionId, n, q);
    }
    ListingInIdOrder(m, n, o);
    ListingDistinct(m, n, o);
    ListingComplete(m, n, o);
  }

  /** No question is listed twice: the ids on a page differ. */
  lemma ListingDistinct(m: map<nat, Question>, n: nat, o: QuestionsOptions)
    requires KeyedById(m)
    ensures forall i, j :: 0 <= i < j < |ListQuestions(InIdOrder(m, QuestionId, n), o).questions| ==>
      ListQuestions(InIdOrder(m, QuestionId, n), o).questions[i].id
        != ListQuestions(InIdOrder(m, QuestionId, n), o).questions[j].id
  {
    var all := InIdOrder(m, QuestionId, n);
    var ordered := Ordered(all, o);
    var page := ListQuestions(all, o).questions;
    InIdOrderIncreasing(m, QuestionId, n);
    IncreasingDistinct(all, QuestionId);
    assert Distinct(ordered);
    PageWithin(ordered, o.offset.GetOr(0), o.limit, QuestionId);
    assert Distinct(page);
    DistinctPositions(page);
    ListQuestionsSpec(all, o);
    forall i, j | 0 <= i < j < |page| ensures page[i].id != page[j].id {
      InIdOrderEntry(m, QuestionId, n, page[i]);
      InIdOrderEntry(m, QuestionId, n, page[j]);
    }
  }

  /** A listing that starts at the first match and has room for all of them
      lists every matching entry of the store. */
  lemma ListingComplete(m: map<nat, Question>, n: nat, o: QuestionsOptions)
    requires KeyedById(m)
    requires forall id :: id in m ==> id < n
    ensures o.offset.GetOr(0) == 0 && (o.limit.None? || |Matching(m, o)| <= o.limit.value) ==>
      forall id :: id in Matching(m, o) ==> m[id] in ListQuestions(InIdOrder(m, QuestionId, n), o).questions
  {
    var all := InIdOrder(m, QuestionId, n);
    if o.offset.GetOr(0) == 0 && (o.limit.None? || |Matching(m, o)| <= o.limit.value) {
      ListingCount(m, QuestionId, n, Keep(o));
      var ordered := Ordered(all, o);
      assert Page(ordered, 0, o.limit) == ordered;
      InIdOrderComplete(m, QuestionId, n);
      forall id | id in Matching(m, o) ensures m[id] in ListQuestions(all, o).questions {
        assert m[id] in all && Matches(m[id], o);
      }
    }
  }

  /** With no order asked for, a listing is by increasing id. */
  lemma ListingInIdOrder(m: map<nat, Question>, n: nat, o: QuestionsOptions)
    requires KeyedById(m)
    ensures o.orderBy.None? ==>
      forall i, j :: 0 <= i < j < |ListQuestions(InIdOrder(m, QuestionId, n), o).questions| ==>
        ListQuestions(InIdOrder(m, QuestionId, n), o).questions[i].id
          < ListQuestions(InIdOrder(m, QuestionId, n), o).questions[j].id
  {
    if o.orderBy.None? {
      var all := InIdOrder(m, QuestionId, n);
      InIdOrderIncreasing(m, QuestionId, n);
      FilterKeepsIdOrder(all, QuestionId, Keep(o));
      assert Ordered(all, o) == Filter(all, o);
      PageWithin(Ordered(all, o), o.offset.GetOr(0), o.limit, QuestionId);
    }
  }
}
