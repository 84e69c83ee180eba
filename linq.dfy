/** The LINQ operators the repositories compose their queries from (Where, Select,
    OrderBy/OrderByDescending, Skip, Take, List.IndexOf), as functions on sequences.
    A table or query result is a sequence of rows; Entity Framework's translation
    to SQL is not modelled. */
module Linq {

  /** Enumerable.Where: the rows that satisfy p, in their original order. */
  function Where<T(!new)>(s: seq<T>, p: T -> bool): (r: seq<T>)
    ensures |r| <= |s|
    ensures forall x :: x in r <==> x in s && p(x)
  {
    if s == [] then []
    else (if p(s[0]) then [s[0]] else []) + Where(s[1..], p)
  }

  /** Two successive Where clauses select exactly what one Where with the conjunction selects. */
  lemma {:induction false} WhereWhere<T(!new)>(s: seq<T>, p: T -> bool, q: T -> bool)
    ensures Where(Where(s, p), q) == Where(s, x => p(x) && q(x))
  {
    if s != [] {
      WhereWhere(s[1..], p, q);
      var head := if p(s[0]) then [s[0]] else [];
      assert Where(s, p) == head + Where(s[1..], p);
      WhereAppend(head, Where(s[1..], p), q);
    }
  }

  /** Where distributes over concatenation. */
  lemma {:induction false} WhereAppend<T(!new)>(a: seq<T>, b: seq<T>, p: T -> bool)
    ensures Where(a + b, p) == Where(a, p) + Where(b, p)
  {
    if a != [] {
      assert (a + b)[1..] == a[1..] + b;
      WhereAppend(a[1..], b, p);
    } else {
      assert a + b == b;
    }
  }

  /** A Where whose predicate holds of every row keeps the whole sequence. */
  lemma {:induction false} WhereAll<T(!new)>(s: seq<T>, p: T -> bool)
    requires forall x :: x in s ==> p(x)
    ensures Where(s, p) == s
  {
    if s != [] {
      WhereAll(s[1..], p);
      assert [s[0]] + s[1..] == s;
    }
  }

  /** PredicateBuilder.True: the predicate every row satisfies. */
  function PredicateTrue<T>(): T -> bool {
    _ => true
  }

  /** PredicateBuilder.And: both predicates. */
  function And<T>(p: T -> bool, q: T -> bool): T -> bool {
    x => p(x) && q(x)
  }

  /** Enumerable.Select */
  function Select<T, U>(s: seq<T>, f: T -> U): (r: seq<U>)
    ensures |r| == |s| && forall i :: 0 <= i < |s| ==> r[i] == f(s[i])
  {
    seq(|s|, i requires 0 <= i < |s| => f(s[i]))
  }

  /** Enumerable.Skip: a count of zero or less skips nothing. */
  function Skip<T>(s: seq<T>, n: int): (r: seq<T>)
    ensures n <= 0 ==> r == s
    ensures 0 <= n <= |s| ==> r == s[n..]
    ensures n >= |s| ==> r == []
  {
    if n <= 0 then s else if n >= |s| then [] else s[n..]
  }

  /** Enumerable.Take: a count of zero or less takes nothing. */
  function Take<T>(s: seq<T>, n: int): (r: seq<T>)
    ensures n <= 0 ==> r == []
    ensures 0 <= n <= |s| ==> r == s[..n]
    ensures n >= |s| ==> r == s
  {
    if n <= 0 then [] else if n >= |s| then s else s[..n]
  }

  /** `.Skip((page - 1) * size).Take(size)`: the page-th block of `size` rows, pages counted from 1. */
  function Page<T>(s: seq<T>, page: int, size: int): seq<T> {
    Take(Skip(s, (page - 1) * size), size)
  }

  /** A page holds at most `size` rows, and its i-th row is the row at position
      (page - 1) * size + i of the sorted input. */
  lemma PageWindow<T>(s: seq<T>, page: int, size: int)
    requires page >= 1 && size >= 0
    ensures |Page(s, page, size)| <= size
    ensures |Page(s, page, size)| == if (page - 1) * size >= |s| then 0 else Min(size, |s| - (page - 1) * size)
    ensures forall i :: 0 <= i < |Page(s, page, size)| ==> Page(s, page, size)[i] == s[(page - 1) * size + i]
  {
    assert (page - 1) * size >= 0;
  }

  /** A page of a sorted arrangement of the rows is the same page of the whole
      listing (all of it taken, as `Take(count)` does when count is at least the
      number of rows), holds at most `size` rows, and holds only rows of the input. */
  lemma PageOfSorted<T>(rows: seq<T>, sorted: seq<T>, page: int, size: int, takeCount: int)
    requires multiset(sorted) == multiset(rows) && takeCount >= |rows| && page >= 1 && size >= 0
    ensures |Take(sorted, takeCount)| == |rows|
    ensures |Page(sorted, page, size)| <= size
    ensures Page(sorted, page, size) == Page(Take(sorted, takeCount), page, size)
    ensures forall x :: x in Page(sorted, page, size) ==> x in rows
  {
    assert |sorted| == |rows| by {
      assert |multiset(sorted)| == |multiset(rows)|;
    }
    PageWindow(sorted, page, size);
    forall x | x in Page(sorted, page, size) ensures x in rows {
      PageSubMultiset(sorted, page, size);
      assert x in multiset(sorted);
    }
  }

  function Min(a: int, b: int): int {
    if a <= b then a else b
  }

  // ---------------------------------------------------------------------------
  // Ordering

  /** The value a row is ordered by. Dates, numbers, enums and booleans become Num
      (false < true); strings become Text; a SQL NULL sorts before every value. */
  datatype SortKey = Null | Num(n: real) | Text(s: string)

  /** Ordinal string order: lexicographic on character codes, a prefix first. */
  predicate TextLe(a: string, b: string)
    decreases |a|
  {
    a == [] || (b != [] && (a[0] < b[0] || (a[0] == b[0] && TextLe(a[1..], b[1..]))))
  }

  lemma {:induction false} TextLeTotal(a: string, b: string)
    ensures TextLe(a, b) || TextLe(b, a)
    decreases |a|
  {
    if a != [] && b != [] && a[0] == b[0] {
      TextLeTotal(a[1..], b[1..]);
    }
  }

  lemma {:induction false} TextLeTransitive(a: string, b: string, c: string)
    requires TextLe(a, b) && TextLe(b, c)
    ensures TextLe(a, c)
    decreases |a|
  {
    if a != [] && b != [] && c != [] && a[0] == b[0] && b[0] == c[0] {
      TextLeTransitive(a[1..], b[1..], c[1..]);
    }
  }

  lemma {:induction false} TextLeAntisymmetric(a: string, b: string)
    requires TextLe(a, b) && TextLe(b, a)
    ensures a == b
    decreases |a|
  {
    if a != [] && b != [] {
      TextLeAntisymmetric(a[1..], b[1..]);
      assert a == [a[0]] + a[1..] && b == [b[0]] + b[1..];
    }
  }

  function Rank(k: SortKey): int {
    match k
    case Null => 0
    case Num(_) => 1
    case Text(_) => 2
  }

  /** The ascending order of keys: a total preorder (in fact a total order). */
  predicate KeyLe(a: SortKey, b: SortKey) {
    if Rank(a) != Rank(b) then Rank(a) < Rank(b)
    else match a
      case Null => true
      case Num(x) => x <= b.n
      case Text(x) => TextLe(x, b.s)
  }

  lemma KeyLeTotal(a: SortKey, b: SortKey)
    ensures KeyLe(a, b) || KeyLe(b, a)
  {
    if a.Text? && b.Text? { TextLeTotal(a.s, b.s); }
  }

  lemma KeyLeTransitive(a: SortKey, b: SortKey, c: SortKey)
    requires KeyLe(a, b) && KeyLe(b, c)
    ensures KeyLe(a, c)
  {
    if a.Text? && b.Text? && c.Text? { TextLeTransitive(a.s, b.s, c.s); }
  }

  lemma KeyLeAntisymmetric(a: SortKey, b: SortKey)
    requires KeyLe(a, b) && KeyLe(b, a)
    ensures a == b
  {
    if a.Text? && b.Text? { TextLeAntisymmetric(a.s, b.s); }
  }

  /** In the requested direction, a key may stand before b. */
  predicate Precedes(a: SortKey, b: SortKey, descending: bool) {
    if descending then KeyLe(b, a) else KeyLe(a, b)
  }

  /** Every earlier row's key may stand before every later row's key. */
  predicate SortedBy<T>(s: seq<T>, key: T -> SortKey, descending: bool) {
    forall i, j :: 0 <= i < j < |s| ==> Precedes(key(s[i]), key(s[j]), descending)
  }

  /** Inserts x after every row whose key may stand before x's, so after the rows
      whose key equals x's. */
  function Insert<T(!new)>(x: T, s: seq<T>, key: T -> SortKey, descending: bool): (r: seq<T>)
    requires SortedBy(s, key, descending)
    ensures multiset(r) == multiset(s) + multiset{x}
    ensures SortedBy(r, key, descending)
  {
    if s == [] then [x]
    else if Precedes(key(s[0]), key(x), descending) then
      var tail := Insert(x, s[1..], key, descending);
      assert s == [s[0]] + s[1..];
      HeadPrecedesInsertion(x, s, tail, key, descending);
      ConsSorted(s[0], tail, key, descending);
      [s[0]] + tail
    else
      InsertedPrecedesAll(x, s, key, descending);
      ConsSorted(x, s, key, descending);
      [x] + s
  }

  /** A row that may precede every row of a sorted sequence may be put in front of it. */
  lemma ConsSorted<T>(h: T, t: seq<T>, key: T -> SortKey, descending: bool)
    requires SortedBy(t, key, descending)
    requires forall k :: 0 <= k < |t| ==> Precedes(key(h), key(t[k]), descending)
    ensures SortedBy([h] + t, key, descending)
  {
    var r := [h] + t;
    forall i, j | 0 <= i < j < |r| ensures Precedes(key(r[i]), key(r[j]), descending) {
      if i > 0 { assert r[i] == t[i - 1] && r[j] == t[j - 1]; }
      else { assert r[j] == t[j - 1]; }
    }
  }

  lemma HeadPrecedesInsertion<T>(x: T, s: seq<T>, tail: seq<T>, key: T -> SortKey, descending: bool)
    requires s != [] && SortedBy(s, key, descending)
    requires Precedes(key(s[0]), key(x), descending)
    requires multiset(tail) == multiset(s[1..]) + multiset{x}
    ensures forall k :: 0 <= k < |tail| ==> Precedes(key(s[0]), key(tail[k]), descending)
  {
    forall k | 0 <= k < |tail| ensures Precedes(key(s[0]), key(tail[k]), descending) {
      var y := tail[k];
      assert y in multiset(tail);
      if y != x {
        assert y in multiset(s[1..]);
        var j :| 0 <= j < |s[1..]| && s[1..][j] == y;
        assert s[1 + j] == y;
      }
    }
  }

  lemma InsertedPrecedesAll<T>(x: T, s: seq<T>, key: T -> SortKey, descending: bool)
    requires s != [] && SortedBy(s, key, descending)
    requires !Precedes(key(s[0]), key(x), descending)
    ensures forall k :: 0 <= k < |s| ==> Precedes(key(x), key(s[k]), descending)
  {
    KeyLeTotal(key(x), key(s[0]));
    forall k | 0 <= k < |s| ensures Precedes(key(x), key(s[k]), descending) {
      if k > 0 {
        if descending { KeyLeTransitive(key(s[k]), key(s[0]), key(x)); }
        else { KeyLeTransitive(key(x), key(s[0]), key(s[k])); }
      }
    }
  }

  /** OrderBy (descending = false) or OrderByDescending (descending = true) on a key:
      a permutation of the rows, sorted by the key in that direction. */
  function OrderBy<T(!new)>(s: seq<T>, key: T -> SortKey, descending: bool): (r: seq<T>)
    ensures multiset(r) == multiset(s)
    ensures SortedBy(r, key, descending)
  {
    if s == [] then []
    else
      assert s == [s[0]] + s[1..];
      Insert(s[0], OrderBy(s[1..], key, descending), key, descending)
  }

  /** List.IndexOf: the first position of x in s, or -1. */
  function Position<T(==)>(s: seq<T>, x: T): (r: int)
    ensures -1 <= r < |s|
    ensures r >= 0 ==> s[r] == x && x !in s[..r]
    ensures r == -1 <==> x !in s
  {
    if s == [] then -1
    else if s[0] == x then 0
    else var p := Position(s[1..], x); if p == -1 then -1 else p + 1
  }

  /** `.OrderBy(r => ids.IndexOf(idOf(r)))`: re-orders rows by where their id stands in `ids`. */
  function OrderByPosition<T(!new)>(rows: seq<T>, ids: seq<int>, idOf: T -> int): (r: seq<T>)
    ensures multiset(r) == multiset(rows)
    ensures forall i, j :: 0 <= i < j < |r| ==> Position(ids, idOf(r[i])) <= Position(ids, idOf(r[j]))
  {
    var res := OrderBy(rows, (x: T) => Num(Position(ids, idOf(x)) as real), false);
    assert forall i, j :: 0 <= i < j < |res| ==> Position(ids, idOf(res[i])) <= Position(ids, idOf(res[j])) by {
      forall i, j | 0 <= i < j < |res| ensures Position(ids, idOf(res[i])) <= Position(ids, idOf(res[j])) {
        assert Precedes(Num(Position(ids, idOf(res[i])) as real), Num(Position(ids, idOf(res[j])) as real), false);
      }
    }
    res
  }

  // ---------------------------------------------------------------------------
  // Re-ordering a fetched page by its id list

  /** No element occurs twice. */
  predicate Distinct<T(==)>(s: seq<T>) {
    forall i, j :: 0 <= i < j < |s| ==> s[i] != s[j]
  }

  /** No two rows share an id (the id is a primary key). */
  predicate KeysDistinct<T>(s: seq<T>, idOf: T -> int) {
    forall i, j :: 0 <= i < j < |s| ==> idOf(s[i]) != idOf(s[j])
  }

  /** `r => ids.Contains(idOf(r))` */
  function IdIn<T>(ids: seq<int>, idOf: T -> int): T -> bool {
    x => idOf(x) in ids
  }

  /** A row with a repeated element counts it at least twice. */
  lemma TwiceCounted<T>(s: seq<T>, i: int, j: int)
    requires 0 <= i < j < |s|
    ensures s[i] == s[j] ==> multiset(s)[s[i]] >= 2
  {
    assert s == s[..j] + s[j..];
    assert s[i] == s[..j][i];
    assert s[j] == s[j..][0];
  }

  /** A sequence without repetitions counts each of its elements once. */
  lemma {:induction false} DistinctCount<T>(s: seq<T>, x: T)
    requires Distinct(s)
    ensures multiset(s)[x] == if x in s then 1 else 0
  {
    if s != [] {
      assert s == [s[0]] + s[1..];
      assert Distinct(s[1..]);
      assert s[0] !in s[1..];
      DistinctCount(s[1..], x);
    }
  }

  /** Part of a sequence without repetitions has none either. */
  lemma SubDistinct<T>(a: seq<T>, b: seq<T>)
    requires multiset(a) <= multiset(b) && Distinct(b)
    ensures Distinct(a)
  {
    forall i, j | 0 <= i < j < |a| ensures a[i] != a[j] {
      TwiceCounted(a, i, j);
      DistinctCount(b, a[i]);
    }
  }

  /** Part of a table keyed by id is keyed by id. */
  lemma SubKeysDistinct<T>(a: seq<T>, b: seq<T>, idOf: T -> int)
    requires multiset(a) <= multiset(b) && KeysDistinct(b, idOf)
    ensures KeysDistinct(a, idOf)
  {
    assert Distinct(b);
    SubDistinct(a, b);
    forall i, j | 0 <= i < j < |a| ensures idOf(a[i]) != idOf(a[j]) {
      assert a[i] in multiset(b) && a[j] in multiset(b);
      SameKeySameRow(b, a[i], a[j], idOf);
    }
  }

  /** In a table keyed by id, a row is determined by its id. */
  lemma SameKeySameRow<T>(s: seq<T>, x: T, y: T, idOf: T -> int)
    requires KeysDistinct(s, idOf) && x in s && y in s
    ensures idOf(x) == idOf(y) ==> x == y
  {
    var a :| 0 <= a < |s| && s[a] == x;
    var b :| 0 <= b < |s| && s[b] == y;
    assert a < b ==> idOf(s[a]) != idOf(s[b]);
    assert b < a ==> idOf(s[b]) != idOf(s[a]);
  }

  lemma {:induction false} WhereSubMultiset<T(!new)>(s: seq<T>, p: T -> bool)
    ensures multiset(Where(s, p)) <= multiset(s)
  {
    if s != [] {
      WhereSubMultiset(s[1..], p);
      assert s == [s[0]] + s[1..];
    }
  }

  lemma PageSubMultiset<T>(s: seq<T>, page: int, size: int)
    ensures multiset(Page(s, page, size)) <= multiset(s)
  {
    var n := (page - 1) * size;
    var k := Skip(s, n);
    assert multiset(k) <= multiset(s) by {
      if 0 < n < |s| { assert s == s[..n] + s[n..]; }
    }
    assert multiset(Take(k, size)) <= multiset(k) by {
      if 0 < size < |k| { assert k == k[..size] + k[size..]; }
    }
  }

  /** Strictly increasing along s in f. */
  predicate StrictlyIncreasing<T>(s: seq<T>, f: T -> int) {
    forall i, j :: 0 <= i < j < |s| ==> f(s[i]) < f(s[j])
  }

  /** Two arrangements of the same elements, both strictly increasing in f, coincide. */
  lemma {:induction false} StrictlySortedUnique<T>(a: seq<T>, b: seq<T>, f: T -> int)
    requires multiset(a) == multiset(b)
    requires StrictlyIncreasing(a, f) && StrictlyIncreasing(b, f)
    ensures a == b
    decreases |a|
  {
    assert |a| == |multiset(a)| == |b|;
    if a != [] {
      SortedHeadsEqual(a, b, f);
      TailsSameElements(a, b);
      StrictlySortedUnique(a[1..], b[1..], f);
      assert a == [a[0]] + a[1..] && b == [b[0]] + b[1..];
    }
  }

  lemma SortedHeadsEqual<T>(a: seq<T>, b: seq<T>, f: T -> int)
    requires multiset(a) == multiset(b) && a != []
    requires StrictlyIncreasing(a, f) && StrictlyIncreasing(b, f)
    ensures b != [] && a[0] == b[0]
  {
    assert a[0] in multiset(b);
    var k :| 0 <= k < |b| && b[k] == a[0];
    assert b[0] in multiset(a);
    var m :| 0 <= m < |a| && a[m] == b[0];
    assert f(b[0]) <= f(b[k]) && f(a[0]) <= f(a[m]);
  }

  lemma TailsSameElements<T>(a: seq<T>, b: seq<T>)
    requires multiset(a) == multiset(b) && a != [] && b != [] && a[0] == b[0]
    ensures multiset(a[1..]) == multiset(b[1..])
  {
    assert a == [a[0]] + a[1..];
    assert b == [b[0]] + b[1..];
    forall x ensures multiset(a[1..])[x] == multiset(b[1..])[x] {
      assert multiset(a)[x] == multiset(b)[x];
    }
  }

  /** In a list without repetitions, an element's position is its index. */
  lemma PositionOfDistinct(ids: seq<int>, k: int)
    requires Distinct(ids) && 0 <= k < |ids|
    ensures Position(ids, ids[k]) == k
  {
    assert ids[k] in ids;
    var p := Position(ids, ids[k]);
    assert forall i :: 0 <= i < p ==> ids[..p][i] == ids[i];
  }

  /** Re-fetching the rows of a page of a table keyed by id by the page's ids, and
      ordering them by the position of their id, gives back the page. */
  lemma RefetchedPage<T(!new)>(table: seq<T>, page: seq<T>, idOf: T -> int)
    requires KeysDistinct(table, idOf) && multiset(page) <= multiset(table)
    ensures var ids := Select(page, idOf);
            OrderByPosition(Where(table, IdIn(ids, idOf)), ids, idOf) == page
  {
    var ids := Select(page, idOf);
    SubKeysDistinct(page, table, idOf);
    var fetched := Where(table, IdIn(ids, idOf));
    FetchedByIds(table, page, idOf);
    ReorderedByIds(fetched, ids, idOf);
    SameIdsSameRows(table, OrderByPosition(fetched, ids, idOf), page, idOf);
  }

  /** The rows fetched by the ids of a page of a table keyed by id: keyed by id, one
      for each id and no others. */
  lemma FetchedByIds<T(!new)>(table: seq<T>, page: seq<T>, idOf: T -> int)
    requires KeysDistinct(table, idOf) && multiset(page) <= multiset(table)
    ensures var ids := Select(page, idOf);
            var fetched := Where(table, IdIn(ids, idOf));
            && multiset(fetched) <= multiset(table)
            && KeysDistinct(fetched, idOf)
            && (forall x :: x in fetched ==> idOf(x) in ids)
            && (forall k :: 0 <= k < |ids| ==> exists x :: x in fetched && idOf(x) == ids[k])
  {
    var ids := Select(page, idOf);
    var fetched := Where(table, IdIn(ids, idOf));
    WhereSubMultiset(table, IdIn(ids, idOf));
    SubKeysDistinct(fetched, table, idOf);
    forall x | x in fetched ensures idOf(x) in ids {
      assert IdIn(ids, idOf)(x);
    }
    forall k | 0 <= k < |ids| ensures exists x :: x in fetched && idOf(x) == ids[k] {
      assert page[k] in multiset(table);
      assert page[k] in fetched;
    }
  }

  /** Two lists of rows of a table keyed by id with the same ids in the same order are equal. */
  lemma SameIdsSameRows<T>(table: seq<T>, a: seq<T>, b: seq<T>, idOf: T -> int)
    requires KeysDistinct(table, idOf)
    requires multiset(a) <= multiset(table) && multiset(b) <= multiset(table)
    requires Select(a, idOf) == Select(b, idOf)
    ensures a == b
  {
    assert |a| == |Select(a, idOf)| == |b|;
    forall k | 0 <= k < |a| ensures a[k] == b[k] {
      assert a[k] in multiset(table) && b[k] in multiset(table);
      assert Select(a, idOf)[k] == Select(b, idOf)[k];
      SameKeySameRow(table, a[k], b[k], idOf);
    }
  }

  /** Rows keyed by id, one for each id of a list without repetitions and no others,
      ordered by the position of their id in the list, come out in the list's order. */
  lemma ReorderedByIds<T(!new)>(rows: seq<T>, ids: seq<int>, idOf: T -> int)
    requires KeysDistinct(rows, idOf) && Distinct(ids)
    requires forall x :: x in rows ==> idOf(x) in ids
    requires forall k :: 0 <= k < |ids| ==> exists x :: x in rows && idOf(x) == ids[k]
    ensures Select(OrderByPosition(rows, ids, idOf), idOf) == ids
  {
    var r := OrderByPosition(rows, ids, idOf);
    var q := Select(r, idOf);
    assert multiset(r) == multiset(rows);
    SubKeysDistinct(r, rows, idOf);
    SameIds(rows, r, ids, idOf);
    forall i | 0 <= i < |r| ensures idOf(r[i]) in ids {
      assert r[i] in multiset(rows);
    }
    IdsInPositionOrder(r, ids, idOf);
    DistinctInPositionOrder(ids);
    StrictlySortedUnique(q, ids, (x: int) => Position(ids, x));
  }

  lemma DistinctInPositionOrder(ids: seq<int>)
    requires Distinct(ids)
    ensures StrictlyIncreasing(ids, (x: int) => Position(ids, x))
  {
    forall i, j | 0 <= i < j < |ids| ensures Position(ids, ids[i]) < Position(ids, ids[j]) {
      PositionOfDistinct(ids, i);
      PositionOfDistinct(ids, j);
    }
  }

  /** The ids of a re-arrangement of such rows are the list's ids, each once. */
  lemma SameIds<T(!new)>(rows: seq<T>, r: seq<T>, ids: seq<int>, idOf: T -> int)
    requires multiset(r) == multiset(rows) && KeysDistinct(r, idOf) && Distinct(ids)
    requires forall x :: x in rows ==> idOf(x) in ids
    requires forall k :: 0 <= k < |ids| ==> exists x :: x in rows && idOf(x) == ids[k]
    ensures multiset(Select(r, idOf)) == multiset(ids)
  {
    var q := Select(r, idOf);
    assert Distinct(q);
    forall x | x in q ensures x in ids {
      var k :| 0 <= k < |q| && q[k] == x;
      assert r[k] in multiset(rows);
    }
    forall x | x in ids ensures x in q {
      var k :| 0 <= k < |ids| && ids[k] == x;
      var y :| y in rows && idOf(y) == ids[k];
      assert y in multiset(r);
      var i :| 0 <= i < |r| && r[i] == y;
      assert q[i] == x;
    }
    forall x ensures multiset(q)[x] == multiset(ids)[x] {
      DistinctCount(q, x);
      DistinctCount(ids, x);
    }
  }

  /** Rows ordered by the position of their distinct ids are strictly increasing in it. */
  lemma IdsInPositionOrder<T>(r: seq<T>, ids: seq<int>, idOf: T -> int)
    requires KeysDistinct(r, idOf)
    requires forall i :: 0 <= i < |r| ==> idOf(r[i]) in ids
    requires forall i, j :: 0 <= i < j < |r| ==> Position(ids, idOf(r[i])) <= Position(ids, idOf(r[j]))
    ensures StrictlyIncreasing(Select(r, idOf), (x: int) => Position(ids, x))
  {
    var q := Select(r, idOf);
    forall i, j | 0 <= i < j < |q| ensures Position(ids, q[i]) < Position(ids, q[j]) {
      assert Position(ids, idOf(r[i])) <= Position(ids, idOf(r[j]));
    }
  }

  /** Filtering the images of rows is mapping the rows that pass the matching filter. */
  lemma {:induction false} WhereSelect<T(!new), U(!new)>(s: seq<T>, f: T -> U, p: U -> bool, q: T -> bool)
    requires forall x :: q(x) == p(f(x))
    ensures Where(Select(s, f), p) == Select(Where(s, q), f)
  {
    if s != [] {
      assert Select(s, f)[1..] == Select(s[1..], f);
      WhereSelect(s[1..], f, p, q);
      SelectAppend(if q(s[0]) then [s[0]] else [], Where(s[1..], q), f);
    }
  }

  /** Select distributes over concatenation. */
  lemma SelectAppend<T, U>(a: seq<T>, b: seq<T>, f: T -> U)
    ensures Select(a + b, f) == Select(a, f) + Select(b, f)
  {
  }

  /** A page of the images is the image of the page. */
  lemma PageOfSelect<T, U>(s: seq<T>, f: T -> U, page: int, size: int)
    ensures Page(Select(s, f), page, size) == Select(Page(s, page, size), f)
  {
    var n := (page - 1) * size;
    assert Skip(Select(s, f), n) == Select(Skip(s, n), f);
  }

  /** A filter inside another that it implies adds nothing. */
  lemma {:induction false} WhereNarrowed<T(!new)>(s: seq<T>, p: T -> bool, q: T -> bool)
    requires forall x :: q(x) ==> p(x)
    ensures Where(Where(s, p), q) == Where(s, q)
  {
    if s != [] {
      var head := if p(s[0]) then [s[0]] else [];
      WhereAppend(head, Where(s[1..], p), q);
      WhereNarrowed(s[1..], p, q);
    }
  }

  /** Elements of b without repetitions form part of b. */
  lemma DistinctSubMultiset<T>(a: seq<T>, b: seq<T>)
    requires Distinct(a) && forall x :: x in a ==> x in b
    ensures multiset(a) <= multiset(b)
  {
    forall x ensures multiset(a)[x] <= multiset(b)[x] {
      DistinctCount(a, x);
    }
  }

  /** Where depends only on the values of its predicate. */
  lemma {:induction false} WhereSame<T(!new)>(s: seq<T>, p: T -> bool, q: T -> bool)
    requires forall x :: p(x) == q(x)
    ensures Where(s, p) == Where(s, q)
  {
    if s != [] { WhereSame(s[1..], p, q); }
  }

  /** Where keeps every copy of a row that passes. */
  lemma {:induction false} WhereCountOfPassing<T(!new)>(s: seq<T>, p: T -> bool, x: T)
    requires p(x)
    ensures multiset(Where(s, p))[x] == multiset(s)[x]
  {
    if s != [] {
      WhereCountOfPassing(s[1..], p, x);
      assert s == [s[0]] + s[1..];
    }
  }

  /** Summation of a real-valued column (Enumerable.Sum). */
  function Sum<T>(s: seq<T>, f: T -> real): real {
    if s == [] then 0.0 else Sum(s[..|s| - 1], f) + f(s[|s| - 1])
  }

  lemma {:induction false} SumAppend<T>(a: seq<T>, b: seq<T>, f: T -> real)
    ensures Sum(a + b, f) == Sum(a, f) + Sum(b, f)
    decreases |b|
  {
    if b == [] {
      assert a + b == a;
    } else {
      assert (a + b)[..|a + b| - 1] == a + b[..|b| - 1];
      SumAppend(a, b[..|b| - 1], f);
    }
  }

  /** A column that is zero on every row sums to zero. */
  lemma {:induction false} SumOfZeros<T>(s: seq<T>, f: T -> real)
    requires forall i :: 0 <= i < |s| ==> f(s[i]) == 0.0
    ensures Sum(s, f) == 0.0
  {
    if s != [] {
      SumOfZeros(s[..|s| - 1], f);
    }
  }
}
