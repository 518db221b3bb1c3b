/** The sort of the user table: the header-click state transition (`handleSort`) and the
    ordering of the displayed rows by the active field and direction. */
module Sorting {
  import opened Text
  import opened Users
  import Sequences

  datatype Order = Asc | Desc

  /** The active sort field and direction. */
  datatype SortKey = SortKey(field: Field, order: Order)

  /** The initial sort: by id, ascending. */
  const InitialSort := SortKey(Id, Asc)

  /** `handleSort(f)`: clicking the active field's header flips the direction; clicking
      another header sorts by that field, ascending. */
  function HandleSort(k: SortKey, f: Field): (r: SortKey)
    ensures r.field == f
    ensures f == k.field ==> r.order != k.order
    ensures f != k.field ==> r.order == Asc
  {
    if f == k.field then k.(order := if k.order == Asc then Desc else Asc)
    else SortKey(f, Asc)
  }

  /** Two clicks on the active header restore the sort. */
  lemma SortClickTwice(k: SortKey)
    ensures HandleSort(HandleSort(k, k.field), k.field) == k
  {
  }

  /** Two clicks on another header sort by it, descending. */
  lemma SortNewFieldTwice(k: SortKey, f: Field)
    requires f != k.field
    ensures HandleSort(HandleSort(k, f), f) == SortKey(f, Desc)
  {
  }

  // ---------------------------------------------------------------------------
  // The comparator
  // ---------------------------------------------------------------------------

  /** `a[f] < b[f]`: numeric on ids, the string order on the other fields. */
  predicate FieldLess(a: User, b: User, f: Field) {
    match f
    case Id => a.id < b.id
    case Name => LexLess(a.name, b.name)
    case Role => LexLess(a.role, b.role)
    case Username => LexLess(a.username, b.username)
  }

  lemma FieldLessAsymmetric(a: User, b: User, f: Field)
    ensures FieldLess(a, b, f) ==> !FieldLess(b, a, f)
  {
    match f
    case Id =>
    case Name => LexLessAsymmetric(a.name, b.name);
    case Role => LexLessAsymmetric(a.role, b.role);
    case Username => LexLessAsymmetric(a.username, b.username);
  }

  /** The comparator handed to `sort`: negative puts `a` first, positive puts `b` first. */
  function Compare(a: User, b: User, k: SortKey): (r: int)
    ensures -1 <= r <= 1
    ensures r <= 0 <==> InOrder(a, b, k)
  {
    FieldLessAsymmetric(a, b, k.field);
    if FieldLess(a, b, k.field) then (if k.order == Asc then -1 else 1)
    else if FieldLess(b, a, k.field) then (if k.order == Asc then 1 else -1)
    else 0
  }

  /** `a` may precede `b`: non-decreasing for ascending, non-increasing for descending. */
  predicate InOrder(a: User, b: User, k: SortKey) {
    match k.order
    case Asc => !FieldLess(b, a, k.field)
    case Desc => !FieldLess(a, b, k.field)
  }

  /** The comparator is antisymmetric, and it lets `a` go first exactly when `a` may
      precede `b`. */
  lemma CompareMeaning(a: User, b: User, k: SortKey)
    ensures Compare(a, b, k) == -Compare(b, a, k)
    ensures Compare(a, b, k) <= 0 <==> InOrder(a, b, k)
  {
    FieldLessAsymmetric(a, b, k.field);
    FieldLessAsymmetric(b, a, k.field);
  }

  /** Adjacent rows are in order. */
  ghost predicate SortedBy(s: seq<User>, k: SortKey) {
    forall i :: 0 <= i < |s| - 1 ==> InOrder(s[i], s[i + 1], k)
  }

  // ---------------------------------------------------------------------------
  // The sort
  // ---------------------------------------------------------------------------

  /** Places `x` before the first element the comparator does not put before it. */
  function Insert(x: User, s: seq<User>, k: SortKey): (r: seq<User>)
    ensures |r| == |s| + 1
    ensures multiset(r) == multiset(s) + multiset{x}
    ensures r[0] == x || (s != [] && r[0] == s[0])
    ensures SortedBy(s, k) ==> SortedBy(r, k)
    decreases |s|
  {
    if s == [] then [x]
    else if Compare(x, s[0], k) <= 0 then
      CompareMeaning(x, s[0], k);
      [x] + s
    else
      CompareMeaning(x, s[0], k);
      var rest := Insert(x, s[1..], k);
      assert s == [s[0]] + s[1..];
      ConsSorted(s, rest, k);
      [s[0]] + rest
  }

  /** Putting the head of a sorted list back in front of a sorted list that starts with an
      element it may precede gives a sorted list. */
  lemma ConsSorted(s: seq<User>, rest: seq<User>, k: SortKey)
    requires s != [] && rest != []
    requires SortedBy(s, k) ==> SortedBy(rest, k) && InOrder(s[0], rest[0], k)
    ensures SortedBy(s, k) ==> SortedBy([s[0]] + rest, k)
  {
    if SortedBy(s, k) {
      var r := [s[0]] + rest;
      forall i | 0 <= i < |r| - 1
        ensures InOrder(r[i], r[i + 1], k)
      {
        if i > 0 {
          assert r[i] == rest[i - 1] && r[i + 1] == rest[i];
        }
      }
    }
  }

  /** `sort` with the comparator of the table: a permutation of its input, in order. */
  function SortUsers(s: seq<User>, k: SortKey): (r: seq<User>)
    ensures |r| == |s|
    ensures multiset(r) == multiset(s)
    ensures SortedBy(r, k)
    decreases |s|
  {
    if s == [] then []
    else
      assert s == [s[0]] + s[1..];
      Insert(s[0], SortUsers(s[1..], k), k)
  }

  /** Sorting keeps exactly the rows it is given. */
  lemma SortKeepsRows(s: seq<User>, k: SortKey)
    ensures forall u :: u in SortUsers(s, k) <==> u in s
  {
    var r := SortUsers(s, k);
    forall u
      ensures u in r <==> u in s
    {
      assert u in r <==> u in multiset(r);
    }
  }

  // ---------------------------------------------------------------------------
  // Toggling the direction of the id sort reverses the rows
  // ---------------------------------------------------------------------------

  /** No two positions carry the same id. */
  ghost predicate DistinctIds(s: seq<User>) {
    forall i, j :: 0 <= i < j < |s| ==> s[i].id != s[j].id
  }

  /** Ids strictly increase along `s`. */
  ghost predicate IdsIncreasing(s: seq<User>) {
    forall i, j :: 0 <= i < j < |s| ==> s[i].id < s[j].id
  }

  /** Ids strictly decrease along `s`. */
  ghost predicate IdsDecreasing(s: seq<User>) {
    forall i, j :: 0 <= i < j < |s| ==> s[i].id > s[j].id
  }

  /** With distinct ids every record occurs once. */
  lemma {:induction false} DistinctIdsSingleCopies(s: seq<User>, x: User)
    requires DistinctIds(s)
    ensures multiset(s)[x] <= 1
    decreases |s|
  {
    if s != [] {
      assert s == [s[0]] + s[1..];
      assert DistinctIds(s[1..]) by {
        forall i, j | 0 <= i < j < |s[1..]|
          ensures s[1..][i].id != s[1..][j].id
        {
          assert s[1..][i] == s[i + 1] && s[1..][j] == s[j + 1];
        }
      }
      DistinctIdsSingleCopies(s[1..], x);
    }
  }

  /** With distinct ids, the id identifies the record. */
  lemma SameIdSameRecord(s: seq<User>, x: User, y: User)
    requires DistinctIds(s) && x in s && y in s && x.id == y.id
    ensures x == y
  {
    var p :| 0 <= p < |s| && s[p] == x;
    var q :| 0 <= q < |s| && s[q] == y;
    assert !(p < q) && !(q < p);
  }

  /** Distinct ids survive any rearrangement. */
  lemma DistinctIdsPermutation(s: seq<User>, r: seq<User>)
    requires DistinctIds(s) && multiset(r) == multiset(s)
    ensures DistinctIds(r)
  {
    forall i, j | 0 <= i < j < |r|
      ensures r[i].id != r[j].id
    {
      assert r[i] in multiset(s) && r[j] in multiset(s);
      if r[i].id == r[j].id {
        SameIdSameRecord(s, r[i], r[j]);
        Sequences.TwoPositionsTwoCopies(r, i, j);
        DistinctIdsSingleCopies(s, r[i]);
      }
    }
  }

  /** In order by id with distinct ids means strictly ordered by id. */
  lemma {:induction false} StrictFromSorted(s: seq<User>, order: Order)
    requires SortedBy(s, SortKey(Id, order)) && DistinctIds(s)
    ensures order == Asc ==> IdsIncreasing(s)
    ensures order == Desc ==> IdsDecreasing(s)
    decreases |s|
  {
    if |s| > 1 {
      var t := s[1..];
      assert SortedBy(t, SortKey(Id, order)) by {
        forall i | 0 <= i < |t| - 1
          ensures InOrder(t[i], t[i + 1], SortKey(Id, order))
        {
          assert t[i] == s[i + 1] && t[i + 1] == s[i + 2];
        }
      }
      assert DistinctIds(t) by {
        forall i, j | 0 <= i < j < |t|
          ensures t[i].id != t[j].id
        {
          assert t[i] == s[i + 1] && t[j] == s[j + 1];
        }
      }
      StrictFromSorted(t, order);
      assert InOrder(s[0], s[1], SortKey(Id, order));
      assert s[0].id != s[1].id;
      forall i, j | 0 <= i < j < |s|
        ensures order == Asc ==> s[i].id < s[j].id
        ensures order == Desc ==> s[i].id > s[j].id
      {
        if i > 0 {
          assert s[i] == t[i - 1] && s[j] == t[j - 1];
        } else if j > 1 {
          assert s[1] == t[0] && s[j] == t[j - 1];
        }
      }
    }
  }

  /** Two rearrangements of the same rows with strictly decreasing ids start alike. */
  lemma DecreasingHeads(a: seq<User>, b: seq<User>)
    requires multiset(a) == multiset(b) && a != []
    requires IdsDecreasing(a) && IdsDecreasing(b)
    ensures b != [] && a[0] == b[0]
  {
    assert a[0] in multiset(b);
    var j :| 0 <= j < |b| && b[j] == a[0];
    assert b[0] in multiset(a);
    var k :| 0 <= k < |a| && a[k] == b[0];
    assert !(0 < j) by {
      if 0 < k {
        assert a[0].id > a[k].id;
      }
    }
  }

  lemma DecreasingTail(a: seq<User>)
    requires IdsDecreasing(a) && a != []
    ensures IdsDecreasing(a[1..])
  {
    forall i, j | 0 <= i < j < |a[1..]|
      ensures a[1..][i].id > a[1..][j].id
    {
      assert a[1..][i] == a[i + 1] && a[1..][j] == a[j + 1];
    }
  }

  /** Two rearrangements of the same rows with strictly decreasing ids are equal. */
  lemma {:induction false} DecreasingUnique(a: seq<User>, b: seq<User>)
    requires multiset(a) == multiset(b)
    requires IdsDecreasing(a) && IdsDecreasing(b)
    ensures a == b
    decreases |a|
  {
    if a == [] {
      assert |multiset(b)| == 0;
    } else {
      DecreasingHeads(a, b);
      assert a == [a[0]] + a[1..] && b == [b[0]] + b[1..];
      assert multiset(a[1..]) == multiset(a) - multiset{a[0]};
      assert multiset(b[1..]) == multiset(b) - multiset{b[0]};
      DecreasingTail(a);
      DecreasingTail(b);
      DecreasingUnique(a[1..], b[1..]);
    }
  }

  /** With distinct ids, switching the id sort from ascending to descending shows exactly
      the ascending rows in reverse. */
  lemma ToggleReversesIdSort(s: seq<User>)
    requires DistinctIds(s)
    ensures SortUsers(s, SortKey(Id, Desc)) == Sequences.Reverse(SortUsers(s, SortKey(Id, Asc)))
  {
    var up := SortUsers(s, SortKey(Id, Asc));
    var down := SortUsers(s, SortKey(Id, Desc));
    var rev := Sequences.Reverse(up);
    DistinctIdsPermutation(s, up);
    DistinctIdsPermutation(s, down);
    StrictFromSorted(up, Asc);
    StrictFromSorted(down, Desc);
    ReverseIncreasing(up);
    DecreasingUnique(down, rev);
  }

  lemma ReverseIncreasing(s: seq<User>)
    requires IdsIncreasing(s)
    ensures IdsDecreasing(Sequences.Reverse(s))
  {
    var rev := Sequences.Reverse(s);
    forall i, j | 0 <= i < j < |rev|
      ensures rev[i].id > rev[j].id
    {
      assert rev[i] == s[|s| - 1 - i] && rev[j] == s[|s| - 1 - j];
    }
  }
}
