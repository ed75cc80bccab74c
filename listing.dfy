/**
 * The question list page: one of three two-key orders, an optional case-insensitive keyword
 * search over the question and the authors of its answers (with the duplicates of the join
 * removed), and pages of ten.
 */
module Listing {
  import opened Base
  import opened Text
  import opened Models

  /** One question as the list sees it, with the aggregates the query counts. */
  datatype Entry = Entry(id: QuestionId, subject: string, content: string, author: UserId,
                         voterCount: nat, answerAuthors: seq<UserId>, createdOn: nat)

  // ---------------------------------------------------------------- reading the store

  /** The answers of question `q` whose ids are below `n`. */
  function AnswersBelow(db: Db, q: QuestionId, n: nat): set<AnswerId> {
    set a | a in db.answers && db.answers[a].question == q && a < n
  }

  /** The authors of the answers of `q`, in ascending answer id, among ids below `n`. */
  function AnswerAuthors(db: Db, q: QuestionId, n: nat): (r: seq<UserId>)
    ensures |r| == |AnswersBelow(db, q, n)|
    ensures forall x :: x in r <==> exists a :: a in AnswersBelow(db, q, n) && db.answers[a].post.createdBy == x
  {
    if n == 0 then
      assert AnswersBelow(db, q, n) == {};
      []
    else
      var rest := AnswerAuthors(db, q, n - 1);
      if n - 1 in db.answers && db.answers[n - 1].question == q then
        assert AnswersBelow(db, q, n) == AnswersBelow(db, q, n - 1) + {n - 1};
        rest + [db.answers[n - 1].post.createdBy]
      else
        assert AnswersBelow(db, q, n) == AnswersBelow(db, q, n - 1);
        rest
  }

  /** When every answer id is below `n`, the list holds one author per answer of `q`. */
  lemma AnswerCountIsCount(db: Db, q: QuestionId, n: nat)
    requires forall a :: a in db.answers ==> a < n
    ensures |AnswerAuthors(db, q, n)| == |AnswersOf(db, q)|
  {
    assert AnswersBelow(db, q, n) == AnswersOf(db, q);
  }

  function EntryOf(db: Db, q: QuestionId, answerBound: nat): Entry
    requires q in db.questions
  {
    var row := db.questions[q];
    Entry(q, row.subject, row.content, row.post.createdBy, |row.post.voters|,
          AnswerAuthors(db, q, answerBound), row.post.createdOn)
  }

  /** No entry occurs twice. */
  ghost predicate NoDup(s: seq<Entry>) {
    forall e :: multiset(s)[e] <= 1
  }

  /**
   * `r` lists the questions of `db` whose ids are below `n`, each once and as `EntryOf` reads it,
   * in ascending id.
   */
  ghost predicate Scanned(db: Db, n: nat, answerBound: nat, r: seq<Entry>) {
    && (forall i :: 0 <= i < |r| ==> r[i].id < n && r[i].id in db.questions)
    && (forall i :: 0 <= i < |r| ==> r[i] == EntryOf(db, r[i].id, answerBound))
    && (forall i, j :: 0 <= i < j < |r| ==> r[i].id < r[j].id)
    && (forall q :: q in db.questions && q < n ==> exists i :: 0 <= i < |r| && r[i].id == q)
    && NoDup(r)
  }

  /** The questions whose ids are below `n`, in ascending id: the table before any ordering. */
  function Scan(db: Db, n: nat, answerBound: nat): (r: seq<Entry>)
    ensures Scanned(db, n, answerBound, r)
  {
    if n == 0 then []
    else
      var rest := Scan(db, n - 1, answerBound);
      if n - 1 in db.questions then
        var e := EntryOf(db, n - 1, answerBound);
        ScanAppend(db, n - 1, answerBound, rest, e);
        rest + [e]
      else
        ScanSkip(db, n - 1, answerBound, rest);
        rest
  }

  /** The step of `Scan` past an id that holds no question. */
  lemma ScanSkip(db: Db, m: nat, answerBound: nat, rest: seq<Entry>)
    requires m !in db.questions && Scanned(db, m, answerBound, rest)
    ensures Scanned(db, m + 1, answerBound, rest)
  {
  }

  /** The step of `Scan` that appends the question with the next id. */
  lemma ScanAppend(db: Db, m: nat, answerBound: nat, rest: seq<Entry>, e: Entry)
    requires m in db.questions && e == EntryOf(db, m, answerBound)
    requires Scanned(db, m, answerBound, rest)
    ensures Scanned(db, m + 1, answerBound, rest + [e])
  {
    var r := rest + [e];
    assert e.id == m;
    forall i | 0 <= i < |r|
      ensures r[i].id < m + 1 && r[i].id in db.questions
      ensures r[i] == EntryOf(db, r[i].id, answerBound)
    {
      if i < |rest| {
        assert r[i] == rest[i];
      } else {
        assert r[i] == e;
      }
    }
    forall i, j | 0 <= i < j < |r| ensures r[i].id < r[j].id {
      assert r[i] == rest[i];
      if j < |rest| {
        assert r[j] == rest[j];
      } else {
        assert r[j] == e;
      }
    }
    forall q | q in db.questions && q < m + 1 ensures exists i :: 0 <= i < |r| && r[i].id == q {
      if q < m {
        var i :| 0 <= i < |rest| && rest[i].id == q;
        assert r[i] == rest[i];
      } else {
        assert r[|rest|] == e;
      }
    }
    assert e !in rest by {
      forall i | 0 <= i < |rest| ensures rest[i] != e {
        assert rest[i].id < m;
      }
    }
    NoDupAppend(rest, e);
  }

  /** Appending an entry not yet present keeps a list duplicate-free. */
  lemma NoDupAppend(s: seq<Entry>, e: Entry)
    requires NoDup(s) && e !in s
    ensures NoDup(s + [e])
  {
    assert multiset(s + [e]) == multiset(s) + multiset{e};
    forall x ensures multiset(s + [e])[x] <= 1 {
      if x == e {
        assert multiset(s)[x] == 0;
      }
    }
  }

  // ---------------------------------------------------------------- ordering

  /** The `so` parameter: `recommend`, `popular`, and anything else means most recent first. */
  datatype Ordering = Recommend | Popular | Recent

  function OrderingOf(so: string): Ordering {
    if so == "recommend" then Recommend
    else if so == "popular" then Popular
    else Recent
  }

  /** The first sort key: voter count, answer count, or none for `recent`. */
  function PrimaryKey(o: Ordering, e: Entry): nat {
    match o
    case Recommend => e.voterCount
    case Popular => |e.answerAuthors|
    case Recent => 0
  }

  /** `a` may be listed before `b`: larger first key, then on a tie the newer one. */
  predicate Precedes(o: Ordering, a: Entry, b: Entry) {
    PrimaryKey(o, a) > PrimaryKey(o, b) ||
    (PrimaryKey(o, a) == PrimaryKey(o, b) && a.createdOn >= b.createdOn)
  }

  predicate Sorted(o: Ordering, s: seq<Entry>) {
    forall i, j :: 0 <= i < j < |s| ==> Precedes(o, s[i], s[j])
  }

  /** `recent` orders by creation time alone, newest first. */
  lemma RecentIsNewestFirst(s: seq<Entry>)
    ensures Sorted(Recent, s) <==> forall i, j :: 0 <= i < j < |s| ==> s[i].createdOn >= s[j].createdOn
  {
  }

  function Insert(o: Ordering, e: Entry, s: seq<Entry>): (r: seq<Entry>)
    requires Sorted(o, s)
    ensures Sorted(o, r)
    ensures multiset(r) == multiset(s) + multiset{e}
  {
    if s == [] then [e]
    else if Precedes(o, e, s[0]) then [e] + s
    else
      var rest := Insert(o, e, s[1..]);
      assert s == [s[0]] + s[1..];
      FirstPrecedesInserted(o, e, s, rest);
      [s[0]] + rest
  }

  /** The helper step of `Insert`: the head of the list goes before everything inserted after it. */
  lemma FirstPrecedesInserted(o: Ordering, e: Entry, s: seq<Entry>, rest: seq<Entry>)
    requires Sorted(o, s) && s != [] && !Precedes(o, e, s[0])
    requires multiset(rest) == multiset(s[1..]) + multiset{e}
    ensures forall j :: 0 <= j < |rest| ==> Precedes(o, s[0], rest[j])
  {
    forall j | 0 <= j < |rest| ensures Precedes(o, s[0], rest[j]) {
      var x := rest[j];
      assert x in multiset(rest);
      if x != e {
        assert x in multiset(s[1..]);
        var k :| 0 <= k < |s[1..]| && s[1..][k] == x;
        assert s[k + 1] == x;
      }
    }
  }

  /** The order the query's `order_by` yields: sorted by the two keys, a permutation of its input. */
  function Sort(o: Ordering, s: seq<Entry>): (r: seq<Entry>)
    ensures Sorted(o, r)
    ensures multiset(r) == multiset(s)
  {
    if s == [] then []
    else
      assert s == [s[0]] + s[1..];
      Insert(o, s[0], Sort(o, s[1..]))
  }

  // ---------------------------------------------------------------- searching

  /** The `icontains` lookup. */
  predicate Hit(text: string, kw: string) {
    Contains(Lower(text), Lower(kw))
  }

  /** The question's own fields that the search looks at: subject, content, author's username. */
  predicate OwnHit(e: Entry, kw: string, username: UserId -> string) {
    Hit(e.subject, kw) || Hit(e.content, kw) || Hit(username(e.author), kw)
  }

  /** The search condition on a question: its own fields, or the username of any answer's author. */
  predicate Matches(e: Entry, kw: string, username: UserId -> string) {
    OwnHit(e, kw, username) ||
    exists k :: 0 <= k < |e.answerAuthors| && Hit(username(e.answerAuthors[k]), kw)
  }

  /** The search condition read off the stored tables: the question's own fields, or any of its answers' authors. */
  predicate StoredHit(db: Db, q: QuestionId, kw: string, username: UserId -> string)
    requires q in db.questions
  {
    var row := db.questions[q];
    Hit(row.subject, kw) || Hit(row.content, kw) || Hit(username(row.post.createdBy), kw) ||
    exists a :: a in AnswersOf(db, q) && Hit(username(db.answers[a].post.createdBy), kw)
  }

  /** A question's entry matches exactly when the stored question or one of its stored answers does. */
  lemma MatchesStored(db: Db, q: QuestionId, answerBound: nat, kw: string, username: UserId -> string)
    requires q in db.questions
    requires forall a :: a in db.answers ==> a < answerBound
    ensures Matches(EntryOf(db, q, answerBound), kw, username) <==> StoredHit(db, q, kw, username)
  {
    var e := EntryOf(db, q, answerBound);
    assert AnswersBelow(db, q, answerBound) == AnswersOf(db, q);
    if exists k :: 0 <= k < |e.answerAuthors| && Hit(username(e.answerAuthors[k]), kw) {
      var k :| 0 <= k < |e.answerAuthors| && Hit(username(e.answerAuthors[k]), kw);
      assert e.answerAuthors[k] in e.answerAuthors;
      var a :| a in AnswersBelow(db, q, answerBound) && db.answers[a].post.createdBy == e.answerAuthors[k];
      assert a in AnswersOf(db, q) && Hit(username(db.answers[a].post.createdBy), kw);
    }
    if exists a :: a in AnswersOf(db, q) && Hit(username(db.answers[a].post.createdBy), kw) {
      var a :| a in AnswersOf(db, q) && Hit(username(db.answers[a].post.createdBy), kw);
      var x := db.answers[a].post.createdBy;
      assert x in e.answerAuthors;
      var k :| 0 <= k < |e.answerAuthors| && e.answerAuthors[k] == x;
      assert Hit(username(e.answerAuthors[k]), kw);
    }
  }

  /** An empty keyword is found in every text, so every question matches it. */
  lemma EmptyKeywordMatches(e: Entry, username: UserId -> string)
    ensures Matches(e, "", username)
  {
    assert Lower("") == "";
    ContainsEmpty(Lower(e.subject));
  }

  /** The reference result: the questions that match, in the order given. */
  function Keep(s: seq<Entry>, kw: string, username: UserId -> string): (r: seq<Entry>)
    ensures forall e :: e in r <==> e in s && Matches(e, kw, username)
    ensures multiset(r) <= multiset(s)
  {
    if s == [] then []
    else
      assert s == [s[0]] + s[1..];
      (if Matches(s[0], kw, username) then [s[0]] else []) + Keep(s[1..], kw, username)
  }

  /** One row of the outer join of questions with their answers. */
  datatype JoinRow = JoinRow(entry: Entry, answerAuthor: Option<UserId>)

  /** The join rows of one question: one per answer, or a single row with no answer. */
  function Block(e: Entry): seq<JoinRow> {
    if |e.answerAuthors| == 0 then [JoinRow(e, None)]
    else seq(|e.answerAuthors|, k requires 0 <= k < |e.answerAuthors| => JoinRow(e, Some(e.answerAuthors[k])))
  }

  function Join(s: seq<Entry>): seq<JoinRow> {
    if s == [] then [] else Block(s[0]) + Join(s[1..])
  }

  /** The `Q(...) | Q(...) | ...` condition on one join row. */
  predicate RowHit(r: JoinRow, kw: string, username: UserId -> string) {
    OwnHit(r.entry, kw, username) ||
    (r.answerAuthor.Some? && Hit(username(r.answerAuthor.value), kw))
  }

  function Where(rows: seq<JoinRow>, kw: string, username: UserId -> string): seq<JoinRow> {
    if rows == [] then []
    else (if RowHit(rows[0], kw, username) then [rows[0]] else []) + Where(rows[1..], kw, username)
  }

  /** `.distinct()`: each question once, at its first row, skipping those in `seen`. */
  function Distinct(rows: seq<JoinRow>, seen: set<Entry>): seq<Entry> {
    if rows == [] then []
    else if rows[0].entry in seen then Distinct(rows[1..], seen)
    else [rows[0].entry] + Distinct(rows[1..], seen + {rows[0].entry})
  }

  /** The filtered query: join, condition, distinct. */
  function Search(s: seq<Entry>, kw: string, username: UserId -> string): seq<JoinRow> {
    Where(Join(s), kw, username)
  }

  function EntriesOf(rows: seq<JoinRow>): set<Entry> {
    set k | 0 <= k < |rows| :: rows[k].entry
  }

  lemma {:induction false} WhereAppend(a: seq<JoinRow>, b: seq<JoinRow>, kw: string, username: UserId -> string)
    ensures Where(a + b, kw, username) == Where(a, kw, username) + Where(b, kw, username)
  {
    if a != [] {
      assert (a + b)[1..] == a[1..] + b;
      WhereAppend(a[1..], b, kw, username);
    } else {
      assert a + b == b;
    }
  }

  /** The questions of a non-empty run of rows: those of its first row and of the rest. */
  lemma EntriesOfCons(a: seq<JoinRow>)
    requires a != []
    ensures EntriesOf(a) == {a[0].entry} + EntriesOf(a[1..])
  {
    forall x | x in EntriesOf(a) ensures x in {a[0].entry} + EntriesOf(a[1..]) {
      var k :| 0 <= k < |a| && a[k].entry == x;
      if k > 0 { assert a[1..][k - 1].entry == x; }
    }
    forall x | x in EntriesOf(a[1..]) ensures x in EntriesOf(a) {
      var k :| 0 <= k < |a[1..]| && a[1..][k].entry == x;
      assert a[k + 1].entry == x;
    }
  }

  lemma {:induction false} DistinctAppend(a: seq<JoinRow>, b: seq<JoinRow>, seen: set<Entry>)
    ensures Distinct(a + b, seen) == Distinct(a, seen) + Distinct(b, seen + EntriesOf(a))
  {
    if a == [] {
      assert a + b == b;
      assert EntriesOf(a) == {};
      assert seen + EntriesOf(a) == seen;
    } else {
      assert (a + b)[1..] == a[1..] + b;
      EntriesOfCons(a);
      if a[0].entry in seen {
        DistinctAppend(a[1..], b, seen);
        assert seen + EntriesOf(a[1..]) == seen + EntriesOf(a);
      } else {
        DistinctAppend(a[1..], b, seen + {a[0].entry});
        assert seen + {a[0].entry} + EntriesOf(a[1..]) == seen + EntriesOf(a);
      }
    }
  }

  /** Rows that all belong to `e` collapse to `e` once, or to nothing if `e` was already seen. */
  lemma {:induction false} DistinctOfOne(rows: seq<JoinRow>, e: Entry, seen: set<Entry>)
    requires forall k :: 0 <= k < |rows| ==> rows[k].entry == e
    ensures rows == [] ==> Distinct(rows, seen) == [] && EntriesOf(rows) == {}
    ensures rows != [] ==> EntriesOf(rows) == {e}
    ensures rows != [] && e !in seen ==> Distinct(rows, seen) == [e]
    ensures rows != [] && e in seen ==> Distinct(rows, seen) == []
  {
    if rows != [] {
      DistinctOfOne(rows[1..], e, seen + {e});
      DistinctOfOne(rows[1..], e, seen);
      assert rows[0].entry == e;
      assert e in EntriesOf(rows);
    }
  }

  /** The rows kept by the condition all belong to the one question, or there are none. */
  lemma {:induction false} WhereOfOne(rows: seq<JoinRow>, e: Entry, kw: string, username: UserId -> string)
    requires forall k :: 0 <= k < |rows| ==> rows[k].entry == e
    ensures var w := Where(rows, kw, username);
      && (forall k :: 0 <= k < |w| ==> w[k].entry == e)
      && (w != [] <==> exists k :: 0 <= k < |rows| && RowHit(rows[k], kw, username))
  {
    if rows != [] {
      WhereOfOne(rows[1..], e, kw, username);
      var w := Where(rows, kw, username);
      var wr := Where(rows[1..], kw, username);
      if exists k :: 0 <= k < |rows[1..]| && RowHit(rows[1..][k], kw, username) {
        var k :| 0 <= k < |rows[1..]| && RowHit(rows[1..][k], kw, username);
        assert RowHit(rows[k + 1], kw, username);
      }
      if exists k :: 0 <= k < |rows| && RowHit(rows[k], kw, username) {
        var k :| 0 <= k < |rows| && RowHit(rows[k], kw, username);
        if k > 0 { assert RowHit(rows[1..][k - 1], kw, username); }
      }
    }
  }

  /** A question has a matching join row exactly when it matches. */
  lemma BlockHit(e: Entry, kw: string, username: UserId -> string)
    ensures (forall k :: 0 <= k < |Block(e)| ==> Block(e)[k].entry == e)
    ensures (exists k :: 0 <= k < |Block(e)| && RowHit(Block(e)[k], kw, username)) <==> Matches(e, kw, username)
  {
    var b := Block(e);
    if Matches(e, kw, username) && !OwnHit(e, kw, username) {
      var k :| 0 <= k < |e.answerAuthors| && Hit(username(e.answerAuthors[k]), kw);
      assert RowHit(b[k], kw, username);
    }
    if OwnHit(e, kw, username) {
      assert RowHit(b[0], kw, username);
    }
    if exists k :: 0 <= k < |b| && RowHit(b[k], kw, username) {
      var k :| 0 <= k < |b| && RowHit(b[k], kw, username);
      if !OwnHit(e, kw, username) {
        assert Hit(username(e.answerAuthors[k]), kw);
      }
    }
  }

  /** The tail of a list without duplicates has none, and does not hold the head. */
  lemma NoDupTail(s: seq<Entry>)
    requires NoDup(s) && s != []
    ensures s[0] !in s[1..] && NoDup(s[1..])
    ensures forall x :: x in s[1..] ==> x in s
  {
    assert s == [s[0]] + s[1..];
    assert multiset(s) == multiset{s[0]} + multiset(s[1..]);
    assert multiset(s)[s[0]] <= 1;
    assert multiset(s[1..])[s[0]] == 0;
    forall x ensures multiset(s[1..])[x] <= 1 {
      assert multiset(s[1..])[x] <= multiset(s)[x];
    }
  }

  /** The induction behind `SearchIsKeep`, with the questions already emitted in `seen`. */
  lemma {:induction false} SearchFrom(s: seq<Entry>, seen: set<Entry>, kw: string, username: UserId -> string)
    requires NoDup(s)
    requires forall e :: e in seen ==> e !in s
    ensures Distinct(Search(s, kw, username), seen) == Keep(s, kw, username)
  {
    if s != [] {
      var e := s[0];
      var t := s[1..];
      NoDupTail(s);
      var wb := Where(Block(e), kw, username);
      var wt := Where(Join(t), kw, username);
      WhereAppend(Block(e), Join(t), kw, username);
      assert Search(s, kw, username) == wb + wt;
      DistinctAppend(wb, wt, seen);
      BlockHit(e, kw, username);
      WhereOfOne(Block(e), e, kw, username);
      DistinctOfOne(wb, e, seen);
      if Matches(e, kw, username) {
        assert Distinct(wb, seen) == [e] && seen + EntriesOf(wb) == seen + {e};
        SearchFrom(t, seen + {e}, kw, username);
        assert Keep(s, kw, username) == [e] + Keep(t, kw, username);
      } else {
        assert Distinct(wb, seen) == [] && seen + EntriesOf(wb) == seen;
        SearchFrom(t, seen, kw, username);
        assert Keep(s, kw, username) == Keep(t, kw, username);
      }
    }
  }

  /**
   * The join with the answers repeats a question once per answer; after `.distinct()` the
   * search yields exactly the matching questions, each once, in the order of the list.
   */
  lemma SearchIsKeep(s: seq<Entry>, kw: string, username: UserId -> string)
    requires NoDup(s)
    ensures Distinct(Search(s, kw, username), {}) == Keep(s, kw, username)
  {
    SearchFrom(s, {}, kw, username);
  }

  /** The tail of an ordered list is ordered, and its head goes before all of it. */
  lemma SortedTail(o: Ordering, s: seq<Entry>)
    requires Sorted(o, s) && s != []
    ensures Sorted(o, s[1..])
    ensures forall x :: x in s[1..] ==> Precedes(o, s[0], x)
  {
    var t := s[1..];
    forall i, j | 0 <= i < j < |t| ensures Precedes(o, t[i], t[j]) {
      assert t[i] == s[i + 1] && t[j] == s[j + 1];
    }
    forall x | x in t ensures Precedes(o, s[0], x) {
      var k :| 0 <= k < |t| && t[k] == x;
      assert s[k + 1] == x;
    }
  }

  /** An entry that goes before every element of an ordered list may head it. */
  lemma SortedCons(o: Ordering, x: Entry, rest: seq<Entry>)
    requires Sorted(o, rest)
    requires forall y :: y in rest ==> Precedes(o, x, y)
    ensures Sorted(o, [x] + rest)
  {
    var r := [x] + rest;
    forall i, j | 0 <= i < j < |r| ensures Precedes(o, r[i], r[j]) {
      assert r[j] == rest[j - 1];
      if i > 0 {
        assert r[i] == rest[i - 1];
      }
    }
  }

  /** Filtering keeps the order. */
  lemma {:induction false} KeepSorted(o: Ordering, s: seq<Entry>, kw: string, username: UserId -> string)
    requires Sorted(o, s)
    ensures Sorted(o, Keep(s, kw, username))
  {
    if s != [] {
      SortedTail(o, s);
      KeepSorted(o, s[1..], kw, username);
      var rest := Keep(s[1..], kw, username);
      if Matches(s[0], kw, username) {
        assert Keep(s, kw, username) == [s[0]] + rest;
        SortedCons(o, s[0], rest);
      } else {
        assert Keep(s, kw, username) == rest;
      }
    }
  }

  /** Filtering introduces no duplicate. */
  lemma KeepNoDup(s: seq<Entry>, kw: string, username: UserId -> string)
    requires NoDup(s)
    ensures NoDup(Keep(s, kw, username))
  {
    var r := Keep(s, kw, username);
    forall x ensures multiset(r)[x] <= 1 {
      assert multiset(r)[x] <= multiset(s)[x];
    }
  }

  // ---------------------------------------------------------------- pages

  const PageSize: nat := 10

  /** Pages of ten; an empty list still has one (empty) first page. */
  function NumPages(n: nat): nat {
    if n == 0 then 1 else (n + PageSize - 1) / PageSize
  }

  /**
   * `Paginator.get_page`, whose framework behaviour is taken to be: a page that is not an integer shows
   * page 1; one below 1 or beyond the last page shows the last page.
   */
  function PageNumber(page: string, n: nat): (k: nat)
    ensures 1 <= k <= NumPages(n)
  {
    match ParseInt(page)
    case None => 1
    case Some(v) => if 1 <= v <= NumPages(n) then v else NumPages(n)
  }

  /** Page `k` (counting from 1): the items from position (k-1)*10, at most ten of them. */
  function PageOf<T>(s: seq<T>, k: nat): (r: seq<T>)
    requires 1 <= k <= NumPages(|s|)
    ensures |r| <= PageSize
    ensures (k - 1) * PageSize + |r| <= |s|
    ensures r == s[(k - 1) * PageSize .. (k - 1) * PageSize + |r|]
    ensures |r| == PageSize || (k - 1) * PageSize + |r| == |s|
  {
    var lo := (k - 1) * PageSize;
    var hi := if lo + PageSize >= |s| then |s| else lo + PageSize;
    s[lo..hi]
  }

  /** Every item lies on exactly one page: item `i` is item `i % 10` of page `i / 10 + 1`. */
  lemma PagesCover<T>(s: seq<T>, i: nat)
    requires i < |s|
    ensures 1 <= i / PageSize + 1 <= NumPages(|s|)
    ensures i % PageSize < |PageOf(s, i / PageSize + 1)|
    ensures PageOf(s, i / PageSize + 1)[i % PageSize] == s[i]
  {
  }

  /** An item stands on no page other than the one `PagesCover` names. */
  lemma PagesDisjoint<T>(s: seq<T>, i: nat, k: nat, j: nat)
    requires 1 <= k <= NumPages(|s|) && j < |PageOf(s, k)|
    requires (k - 1) * PageSize + j == i
    ensures k == i / PageSize + 1 && j == i % PageSize
  {
  }

  // ---------------------------------------------------------------- the view

  /** The query parameters `page`, `kw` and `so`, each possibly absent. */
  datatype Params = Params(page: Option<string>, kw: Option<string>, so: Option<string>)

  /** What the list template receives: the page's questions and number, and the parameters. */
  datatype ListPage = ListPage(items: seq<Entry>, number: nat, page: string, kw: string, so: string)

  /** The list before paging: ordered, then searched when the keyword is not empty. */
  function Arranged(s: seq<Entry>, kw: string, so: string, username: UserId -> string): seq<Entry> {
    var ordered := Sort(OrderingOf(so), s);
    if kw != "" then Distinct(Search(ordered, kw, username), {}) else ordered
  }

  /** `IndexView.get`. */
  function Index(s: seq<Entry>, params: Params, username: UserId -> string): (r: ListPage)
    ensures r.page == params.page.GetOr("1") && r.kw == params.kw.GetOr("") && r.so == params.so.GetOr("recent")
    ensures 1 <= r.number && |r.items| <= PageSize
  {
    var page := params.page.GetOr("1");
    var kw := params.kw.GetOr("");
    var so := params.so.GetOr("recent");
    var list := Arranged(s, kw, so, username);
    var k := PageNumber(page, |list|);
    ListPage(PageOf(list, k), k, page, kw, so)
  }

  /**
   * The arranged list is ordered, holds each question at most once, and holds exactly those that
   * match; with an empty keyword that is every question.
   */
  lemma ArrangedSpec(s: seq<Entry>, kw: string, so: string, username: UserId -> string)
    requires NoDup(s)
    ensures var list := Arranged(s, kw, so, username);
      && Sorted(OrderingOf(so), list)
      && NoDup(list)
      && (forall e :: e in list <==> e in s && Matches(e, kw, username))
  {
    var ordered := Sort(OrderingOf(so), s);
    assert NoDup(ordered) by {
      forall x ensures multiset(ordered)[x] <= 1 {
        assert multiset(ordered)[x] == multiset(s)[x];
      }
    }
    forall e ensures e in ordered <==> e in s {
      assert e in ordered <==> e in multiset(ordered);
      assert e in s <==> e in multiset(s);
    }
    if kw != "" {
      SearchIsKeep(ordered, kw, username);
      KeepSorted(OrderingOf(so), ordered, kw, username);
      KeepNoDup(ordered, kw, username);
    } else {
      // skipping the filter loses nothing: the empty keyword matches every question
      forall e | e in s ensures Matches(e, kw, username) {
        EmptyKeywordMatches(e, username);
      }
    }
  }

  /**
   * One response: at most ten questions, a contiguous slice of the arranged list starting at
   * the chosen page, and every question on it present in the store and matching the keyword.
   */
  lemma IndexSpec(s: seq<Entry>, params: Params, username: UserId -> string)
    requires NoDup(s)
    ensures var r := Index(s, params, username);
      var list := Arranged(s, r.kw, r.so, username);
      && |r.items| <= PageSize
      && 1 <= r.number <= NumPages(|list|)
      && r.items == list[(r.number - 1) * PageSize .. (r.number - 1) * PageSize + |r.items|]
      && Sorted(OrderingOf(r.so), r.items)
      && (forall e :: e in r.items ==> e in s && Matches(e, r.kw, username))
  {
    var r := Index(s, params, username);
    var list := Arranged(s, r.kw, r.so, username);
    IndexIsPage(s, params, username);
    ArrangedSpec(s, r.kw, r.so, username);
    PageFacts(OrderingOf(r.so), list, r.number);
  }

  /** The response is the page of the arranged list that the page parameter selects. */
  lemma IndexIsPage(s: seq<Entry>, params: Params, username: UserId -> string)
    ensures var r := Index(s, params, username);
      var list := Arranged(s, r.kw, r.so, username);
      && r.number == PageNumber(r.page, |list|)
      && r.items == PageOf(list, r.number)
  {
  }

  /** A page of an ordered list is ordered, and each of its entries is in the list. */
  lemma PageFacts(o: Ordering, list: seq<Entry>, k: nat)
    requires Sorted(o, list) && 1 <= k <= NumPages(|list|)
    ensures var page := PageOf(list, k);
      && Sorted(o, page)
      && (forall e :: e in page ==> e in list)
  {
    var page := PageOf(list, k);
    var lo := (k - 1) * PageSize;
    SortedSlice(o, list, lo, lo + |page|);
    SliceWithin(list, lo, lo + |page|);
  }

  /** A slice of an ordered list is ordered. */
  lemma SortedSlice(o: Ordering, s: seq<Entry>, lo: nat, hi: nat)
    requires Sorted(o, s) && lo <= hi <= |s|
    ensures Sorted(o, s[lo..hi])
  {
    var t := s[lo..hi];
    forall i, j | 0 <= i < j < |t| ensures Precedes(o, t[i], t[j]) {
      assert t[i] == s[lo + i] && t[j] == s[lo + j];
    }
  }

  /** Every element of a slice is an element of the list. */
  lemma SliceWithin<T>(s: seq<T>, lo: nat, hi: nat)
    requires lo <= hi <= |s|
    ensures forall x :: x in s[lo..hi] ==> x in s
  {
    forall x | x in s[lo..hi] ensures x in s {
      var i :| 0 <= i < hi - lo && s[lo..hi][i] == x;
      assert s[lo + i] == x;
    }
  }

  /** A valid page number, written out in decimal, selects that page. */
  lemma RenderedPageNumber(p: nat, n: nat)
    requires 1 <= p <= NumPages(n)
    ensures PageNumber(NatToString(p), n) == p
  {
    ParseRendered(p);
  }

  /** Every question the list holds can be reached: some page request shows it. */
  lemma EveryListedOnSomePage(s: seq<Entry>, kw: string, so: string, username: UserId -> string, e: Entry)
    requires NoDup(s) && e in s && (kw != "" ==> Matches(e, kw, username))
    ensures exists p: nat :: 1 <= p && e in Index(s, Params(Some(NatToString(p)), Some(kw), Some(so)), username).items
  {
    var list := Arranged(s, kw, so, username);
    InArranged(s, kw, so, username, e);
    var i :| 0 <= i < |list| && list[i] == e;
    PagesCover(list, i);
    var p := i / PageSize + 1;
    RenderedPageNumber(p, |list|);
    var params := Params(Some(NatToString(p)), Some(kw), Some(so));
    IndexIsPage(s, params, username);
    var r := Index(s, params, username);
    assert r.page == NatToString(p) && r.kw == kw && r.so == so;
    assert r.items == PageOf(list, p);
    assert r.items[i % PageSize] == e;
  }

  /** A question that matches is in the arranged list. */
  lemma InArranged(s: seq<Entry>, kw: string, so: string, username: UserId -> string, e: Entry)
    requires NoDup(s) && e in s && (kw != "" ==> Matches(e, kw, username))
    ensures e in Arranged(s, kw, so, username)
  {
    ArrangedSpec(s, kw, so, username);
    if kw == "" {
      EmptyKeywordMatches(e, username);
    }
  }

  /**
   * Over the stored questions: every listed question is in the store, with the number of its
   * voters and one author per answer of the question; under a keyword, the stored question or
   * one of its stored answers matches.
   */
  lemma IndexOfStore(db: Db, n: nat, answerBound: nat, params: Params, username: UserId -> string)
    requires forall q :: q in db.questions ==> q < n
    requires forall a :: a in db.answers ==> a < answerBound
    ensures var r := Index(Scan(db, n, answerBound), params, username);
      forall e :: e in r.items ==>
        && e.id in db.questions
        && e == EntryOf(db, e.id, answerBound)
        && e.voterCount == |db.questions[e.id].post.voters|
        && |e.answerAuthors| == |AnswersOf(db, e.id)|
        && (r.kw != "" ==> StoredHit(db, e.id, r.kw, username))
  {
    var s := Scan(db, n, answerBound);
    var r := Index(s, params, username);
    IndexSpec(s, params, username);
    forall e | e in r.items
      ensures e.id in db.questions && e == EntryOf(db, e.id, answerBound)
      ensures |e.answerAuthors| == |AnswersOf(db, e.id)|
      ensures r.kw != "" ==> StoredHit(db, e.id, r.kw, username)
    {
      var i :| 0 <= i < |s| && s[i] == e;
      AnswerCountIsCount(db, e.id, answerBound);
      MatchesStored(db, e.id, answerBound, r.kw, username);
    }
  }

  /** Conversely, every stored question that matches the keyword is shown on some page. */
  lemma StoredQuestionListed(db: Db, n: nat, answerBound: nat, q: QuestionId, kw: string, so: string,
                             username: UserId -> string)
    requires q in db.questions && q < n
    requires forall a :: a in db.answers ==> a < answerBound
    requires kw != "" ==> StoredHit(db, q, kw, username)
    ensures var e := EntryOf(db, q, answerBound);
      exists p: nat :: 1 <= p && e in Index(Scan(db, n, answerBound), Params(Some(NatToString(p)), Some(kw), Some(so)), username).items
  {
    var s := Scan(db, n, answerBound);
    var i :| 0 <= i < |s| && s[i].id == q;
    assert s[i] == EntryOf(db, q, answerBound);
    MatchesStored(db, q, answerBound, kw, username);
    EveryListedOnSomePage(s, kw, so, username, s[i]);
  }

  /** With no parameters: page 1 of all questions, newest first, ten of them at most. */
  lemma DefaultIndex(s: seq<Entry>, username: UserId -> string)
    ensures var r := Index(s, Params(None, None, None), username);
      var ordered := Sort(Recent, s);
      && r.number == 1 && r.kw == "" && r.so == "recent"
      && r.items == ordered[..if |ordered| < PageSize then |ordered| else PageSize]
      && forall i, j :: 0 <= i < j < |r.items| ==> r.items[i].createdOn >= r.items[j].createdOn
  {
    var ordered := Sort(Recent, s);
    assert OrderingOf("recent") == Recent;
    assert Arranged(s, "", "recent", username) == ordered;
    assert DigitsValue("1") == 1 by {
      assert "1"[..0] == "";
    }
    assert ParseInt("1") == Some(1);
    assert PageNumber("1", |ordered|) == 1;
    var r := Index(s, Params(None, None, None), username);
    assert r.items == PageOf(ordered, 1);
    RecentIsNewestFirst(ordered);
    forall i, j | 0 <= i < j < |r.items| ensures r.items[i].createdOn >= r.items[j].createdOn {
      assert r.items[i] == ordered[i] && r.items[j] == ordered[j];
    }
  }
}
