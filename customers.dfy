/**
 * The customer roster and the `/customers` query of api/routers/customers.py:
 * a fixed list of twenty records, seven optional filters applied one after
 * the other, and an optional stable sort on one named field.
 */
module Customers {
  import opened Wrappers
  import Text

  // ---------------------------------------------------------------------
  // Records and the fixture
  // ---------------------------------------------------------------------

  /** One customer record; the eight fields of the `Customer` response model. */
  datatype Customer = Customer(
    id: string,
    name: string,
    age: int,
    gender: string,
    riskProfile: string,
    aum: int,
    lastContact: string,
    relevance: int)

  // The twenty records of the roster; `Ck` is the record whose id is "k".
  const C1: Customer := Customer("1", "Alice Smith", 34, "female", "low", 120000, "2025-07-10T14:30:00Z", 98)
  const C2: Customer := Customer("2", "Bob Johnson", 45, "male", "medium", 250000, "2025-07-12T09:15:00Z", 95)
  const C3: Customer := Customer("3", "Carol Lee", 29, "female", "high", 80000, "2025-07-15T16:45:00Z", 92)
  const C4: Customer := Customer("4", "David Kim", 52, "male", "medium", 300000, "2025-07-13T11:00:00Z", 90)
  const C5: Customer := Customer("5", "Eva Brown", 41, "female", "low", 175000, "2025-07-11T13:20:00Z", 88)
  const C6: Customer := Customer("6", "Frank Green", 38, "male", "high", 95000, "2025-07-09T10:10:00Z", 85)
  const C7: Customer := Customer("7", "Grace Hall", 27, "female", "medium", 60000, "2025-07-14T15:00:00Z", 83)
  const C8: Customer := Customer("8", "Henry Young", 50, "male", "low", 220000, "2025-07-08T08:30:00Z", 80)
  const C9: Customer := Customer("9", "Ivy King", 36, "female", "high", 105000, "2025-07-16T17:25:00Z", 78)
  const C10: Customer := Customer("10", "Jackie Lin", 31, "other", "medium", 70000, "2025-07-10T12:00:00Z", 75)
  const C11: Customer := Customer("11", "Kevin Scott", 43, "male", "high", 130000, "2025-07-13T14:40:00Z", 72)
  const C12: Customer := Customer("12", "Laura Adams", 39, "female", "low", 160000, "2025-07-12T10:50:00Z", 70)
  const C13: Customer := Customer("13", "Mike Baker", 48, "male", "medium", 210000, "2025-07-11T09:35:00Z", 68)
  const C14: Customer := Customer("14", "Nina Perez", 33, "female", "high", 90000, "2025-07-15T18:10:00Z", 65)
  const C15: Customer := Customer("15", "Oscar Reed", 55, "male", "low", 350000, "2025-07-07T07:45:00Z", 62)
  const C16: Customer := Customer("16", "Paula Torres", 40, "female", "medium", 145000, "2025-07-14T16:30:00Z", 60)
  const C17: Customer := Customer("17", "Quinn Evans", 28, "other", "high", 75000, "2025-07-09T11:55:00Z", 58)
  const C18: Customer := Customer("18", "Ryan White", 46, "male", "medium", 195000, "2025-07-13T13:05:00Z", 55)
  const C19: Customer := Customer("19", "Sara Black", 35, "female", "low", 110000, "2025-07-12T15:15:00Z", 52)
  const C20: Customer := Customer("20", "Tommy Gray", 42, "male", "high", 125000, "2025-07-11T17:50:00Z", 50)

  /** The in-memory roster `CUSTOMERS`, in its listed order. */
  const CUSTOMERS: seq<Customer> := [
    C1, C2, C3, C4, C5, C6, C7, C8, C9, C10,
    C11, C12, C13, C14, C15, C16, C17, C18, C19, C20
  ]

  // ---------------------------------------------------------------------
  // Field names and sort keys
  // ---------------------------------------------------------------------

  /** The keys of a record dictionary. */
  datatype Field = Id | Name | Age | Gender | RiskProfile | Aum | LastContact | Relevance

  function FieldName(f: Field): string
  {
    match f
    case Id => "id"
    case Name => "name"
    case Age => "age"
    case Gender => "gender"
    case RiskProfile => "riskProfile"
    case Aum => "aum"
    case LastContact => "lastContact"
    case Relevance => "relevance"
  }

  /** The test `sort_by in data[0]`: which key of a record dictionary, if any, a string names. */
  function FieldNamed(s: string): (r: Option<Field>)
    ensures r.Some? ==> FieldName(r.value) == s
    ensures forall f :: FieldName(f) == s ==> r == Some(f)
  {
    if s == "id" then Some(Id)
    else if s == "name" then Some(Name)
    else if s == "age" then Some(Age)
    else if s == "gender" then Some(Gender)
    else if s == "riskProfile" then Some(RiskProfile)
    else if s == "aum" then Some(Aum)
    else if s == "lastContact" then Some(LastContact)
    else if s == "relevance" then Some(Relevance)
    else None
  }

  /** The value `c[sort_by]` that `sorted` compares: a number or a string. */
  datatype Key = IntKey(n: int) | StrKey(s: string)

  function KeyOf(f: Field, c: Customer): Key
  {
    match f
    case Id => StrKey(c.id)
    case Name => StrKey(c.name)
    case Age => IntKey(c.age)
    case Gender => StrKey(c.gender)
    case RiskProfile => StrKey(c.riskProfile)
    case Aum => IntKey(c.aum)
    case LastContact => StrKey(c.lastContact)
    case Relevance => IntKey(c.relevance)
  }

  /**
   * Python's `<` on two keys: numeric on integers, lexicographic on strings.
   * A key of one field is never compared with a key of the other kind.
   */
  predicate KeyLess(a: Key, b: Key)
  {
    match (a, b)
    case (IntKey(x), IntKey(y)) => x < y
    case (StrKey(x), StrKey(y)) => Text.Less(x, y)
    case _ => false
  }

  predicate KeyAtMost(a: Key, b: Key)
  {
    KeyLess(a, b) || a == b
  }

  lemma KeyLessStrict(a: Key, b: Key)
    requires KeyLess(a, b)
    ensures a != b && !KeyLess(b, a)
  {
    if a.StrKey? {
      Text.LessAsymmetric(a.s, b.s);
    }
  }

  lemma KeyLessTransitive(a: Key, b: Key, c: Key)
    requires KeyLess(a, b) && KeyLess(b, c)
    ensures KeyLess(a, c)
  {
    if a.StrKey? {
      Text.LessTransitive(a.s, b.s, c.s);
    }
  }

  /** Two keys of the same field are always comparable. */
  lemma KeyTotal(f: Field, x: Customer, y: Customer)
    ensures KeyLess(KeyOf(f, x), KeyOf(f, y)) || KeyOf(f, x) == KeyOf(f, y) || KeyLess(KeyOf(f, y), KeyOf(f, x))
  {
    var a, b := KeyOf(f, x), KeyOf(f, y);
    if a.StrKey? && a != b {
      Text.LessTotal(a.s, b.s);
    }
  }

  // ---------------------------------------------------------------------
  // The stable sort `sorted(data, key=lambda c: c[sort_by], reverse=...)`
  // ---------------------------------------------------------------------

  /** `x` must come strictly before `y`: ascending, its key is smaller; descending, larger. */
  predicate Ahead(f: Field, desc: bool, x: Customer, y: Customer)
  {
    if desc then KeyLess(KeyOf(f, y), KeyOf(f, x)) else KeyLess(KeyOf(f, x), KeyOf(f, y))
  }

  /** `x` may come before `y`: non-decreasing keys ascending, non-increasing descending. */
  predicate InOrder(f: Field, desc: bool, x: Customer, y: Customer)
  {
    if desc then KeyAtMost(KeyOf(f, y), KeyOf(f, x)) else KeyAtMost(KeyOf(f, x), KeyOf(f, y))
  }

  ghost predicate Sorted(f: Field, desc: bool, s: seq<Customer>)
  {
    forall i, j :: 0 <= i < j < |s| ==> InOrder(f, desc, s[i], s[j])
  }

  lemma NotAheadInOrder(f: Field, desc: bool, x: Customer, y: Customer)
    requires !Ahead(f, desc, y, x)
    ensures InOrder(f, desc, x, y)
  {
    KeyTotal(f, x, y);
  }

  lemma InOrderTransitive(f: Field, desc: bool, x: Customer, y: Customer, z: Customer)
    requires InOrder(f, desc, x, y) && InOrder(f, desc, y, z)
    ensures InOrder(f, desc, x, z)
  {
    var a, b, c := KeyOf(f, x), KeyOf(f, y), KeyOf(f, z);
    if desc {
      if KeyLess(c, b) && KeyLess(b, a) {
        KeyLessTransitive(c, b, a);
      }
    } else {
      if KeyLess(a, b) && KeyLess(b, c) {
        KeyLessTransitive(a, b, c);
      }
    }
  }

  /**
   * Inserts `x` into `t` in front of the first element that is not strictly
   * ahead of it, so `x` precedes every element whose key equals its own.
   */
  function Insert(f: Field, desc: bool, x: Customer, t: seq<Customer>): seq<Customer>
  {
    if t == [] || !Ahead(f, desc, t[0], x) then [x] + t
    else [t[0]] + Insert(f, desc, x, t[1..])
  }

  /** A stable insertion sort; it specifies Python's `sorted`, which stays stable with `reverse=True`. */
  function SortBy(f: Field, desc: bool, s: seq<Customer>): seq<Customer>
  {
    if s == [] then []
    else Insert(f, desc, s[0], SortBy(f, desc, s[1..]))
  }

  lemma {:induction false} InsertPermutes(f: Field, desc: bool, x: Customer, t: seq<Customer>)
    ensures multiset(Insert(f, desc, x, t)) == multiset{x} + multiset(t)
  {
    if t != [] && Ahead(f, desc, t[0], x) {
      InsertPermutes(f, desc, x, t[1..]);
      assert t == [t[0]] + t[1..];
    }
  }

  /** Sorting rearranges the records: the result holds each of them exactly as often as the input. */
  lemma {:induction false} SortByPermutes(f: Field, desc: bool, s: seq<Customer>)
    ensures multiset(SortBy(f, desc, s)) == multiset(s)
  {
    if s != [] {
      SortByPermutes(f, desc, s[1..]);
      InsertPermutes(f, desc, s[0], SortBy(f, desc, s[1..]));
      assert s == [s[0]] + s[1..];
    }
  }

  lemma AheadInOrder(f: Field, desc: bool, x: Customer, y: Customer)
    requires Ahead(f, desc, x, y)
    ensures InOrder(f, desc, x, y)
  {
  }

  /** The records of an insertion are the inserted one and those of the list. */
  lemma InsertMembers(f: Field, desc: bool, x: Customer, t: seq<Customer>)
    ensures forall y :: y in Insert(f, desc, x, t) <==> y == x || y in t
  {
    var r := Insert(f, desc, x, t);
    InsertPermutes(f, desc, x, t);
    forall y ensures y in r <==> y == x || y in t {
      assert y in r <==> y in multiset(r);
      assert y in t <==> y in multiset(t);
    }
  }

  /** The head of an ordered list may precede every later element. */
  lemma SortedHead(f: Field, desc: bool, s: seq<Customer>)
    requires s != [] && Sorted(f, desc, s)
    ensures forall y :: y in s[1..] ==> InOrder(f, desc, s[0], y)
  {
    forall y | y in s[1..] ensures InOrder(f, desc, s[0], y) {
      var k :| 0 <= k < |s[1..]| && s[1..][k] == y;
      assert s[k + 1] == y;
    }
  }

  /** Putting in front of an ordered list an element that may precede all of it keeps the list ordered. */
  lemma ConsSorted(f: Field, desc: bool, h: Customer, s: seq<Customer>)
    requires Sorted(f, desc, s) && forall y :: y in s ==> InOrder(f, desc, h, y)
    ensures Sorted(f, desc, [h] + s)
  {
    var r := [h] + s;
    forall i, j | 0 <= i < j < |r| ensures InOrder(f, desc, r[i], r[j]) {
      assert r[j] == s[j - 1];
      if i > 0 {
        assert r[i] == s[i - 1];
      }
    }
  }

  lemma {:induction false} InsertSorted(f: Field, desc: bool, x: Customer, t: seq<Customer>)
    requires Sorted(f, desc, t)
    ensures Sorted(f, desc, Insert(f, desc, x, t))
  {
    if t == [] {
    } else {
      SortedHead(f, desc, t);
      assert t == [t[0]] + t[1..];
      if !Ahead(f, desc, t[0], x) {
        NotAheadInOrder(f, desc, x, t[0]);
        forall y | y in t ensures InOrder(f, desc, x, y) {
          if y != t[0] {
            InOrderTransitive(f, desc, x, t[0], y);
          }
        }
        ConsSorted(f, desc, x, t);
      } else {
        var rest := Insert(f, desc, x, t[1..]);
        SortedTail(f, desc, t);
        InsertSorted(f, desc, x, t[1..]);
        InsertMembers(f, desc, x, t[1..]);
        AheadInOrder(f, desc, t[0], x);
        ConsSorted(f, desc, t[0], rest);
      }
    }
  }

  /** The sorted output is ordered by the key: non-increasing when `desc`, non-decreasing otherwise. */
  lemma {:induction false} SortBySorted(f: Field, desc: bool, s: seq<Customer>)
    ensures Sorted(f, desc, SortBy(f, desc, s))
  {
    if s != [] {
      SortBySorted(f, desc, s[1..]);
      InsertSorted(f, desc, s[0], SortBy(f, desc, s[1..]));
    }
  }

  /** The records of `s` whose key in field `f` is `k`, in their order in `s`. */
  function WithKey(f: Field, k: Key, s: seq<Customer>): seq<Customer>
  {
    if s == [] then []
    else (if KeyOf(f, s[0]) == k then [s[0]] else []) + WithKey(f, k, s[1..])
  }

  lemma WithKeyCons(f: Field, k: Key, c: Customer, s: seq<Customer>)
    ensures WithKey(f, k, [c] + s) == (if KeyOf(f, c) == k then [c] else []) + WithKey(f, k, s)
  {
    assert ([c] + s)[1..] == s;
  }

  lemma WithKeyConsEq(f: Field, k: Key, c: Customer, s1: seq<Customer>, s2: seq<Customer>)
    requires WithKey(f, k, s1) == WithKey(f, k, s2)
    ensures WithKey(f, k, [c] + s1) == WithKey(f, k, [c] + s2)
  {
    WithKeyCons(f, k, c, s1);
    WithKeyCons(f, k, c, s2);
  }

  /** Two neighbours with different keys can change places without disturbing any key's records. */
  lemma WithKeySwap(f: Field, k: Key, a: Customer, b: Customer, s: seq<Customer>)
    requires KeyOf(f, a) != KeyOf(f, b)
    ensures WithKey(f, k, [a] + ([b] + s)) == WithKey(f, k, [b] + ([a] + s))
  {
    WithKeyCons(f, k, a, [b] + s);
    WithKeyCons(f, k, b, s);
    WithKeyCons(f, k, b, [a] + s);
    WithKeyCons(f, k, a, s);
  }

  lemma AheadKeysDiffer(f: Field, desc: bool, x: Customer, y: Customer)
    requires Ahead(f, desc, x, y)
    ensures KeyOf(f, x) != KeyOf(f, y)
  {
    if desc {
      KeyLessStrict(KeyOf(f, y), KeyOf(f, x));
    } else {
      KeyLessStrict(KeyOf(f, x), KeyOf(f, y));
    }
  }

  lemma {:induction false} InsertStable(f: Field, desc: bool, k: Key, x: Customer, t: seq<Customer>)
    ensures WithKey(f, k, Insert(f, desc, x, t)) == WithKey(f, k, [x] + t)
  {
    if t != [] && Ahead(f, desc, t[0], x) {
      var rest := Insert(f, desc, x, t[1..]);
      InsertStable(f, desc, k, x, t[1..]);
      WithKeyConsEq(f, k, t[0], rest, [x] + t[1..]);
      AheadKeysDiffer(f, desc, t[0], x);
      WithKeySwap(f, k, t[0], x, t[1..]);
      assert [t[0]] + t[1..] == t;
    }
  }

  /** Stability: the records sharing any one key value come out in the order they went in. */
  lemma {:induction false} SortByStable(f: Field, desc: bool, k: Key, s: seq<Customer>)
    ensures WithKey(f, k, SortBy(f, desc, s)) == WithKey(f, k, s)
  {
    if s != [] {
      SortByStable(f, desc, k, s[1..]);
      InsertStable(f, desc, k, s[0], SortBy(f, desc, s[1..]));
      assert ([s[0]] + SortBy(f, desc, s[1..]))[1..] == SortBy(f, desc, s[1..]);
    }
  }

  /** Sorting an already ordered list changes nothing. */
  lemma {:induction false} SortBySortedIdentity(f: Field, desc: bool, s: seq<Customer>)
    requires Sorted(f, desc, s)
    ensures SortBy(f, desc, s) == s
  {
    if s != [] {
      SortedTail(f, desc, s);
      SortBySortedIdentity(f, desc, s[1..]);
      if |s| > 1 {
        assert InOrder(f, desc, s[0], s[1]);
        AheadExclusive(f, desc, s[1], s[0]);
      }
      assert s == [s[0]] + s[1..];
    }
  }

  /** No two elements share a key: each is strictly ahead of every later one. */
  ghost predicate StrictlySorted(f: Field, desc: bool, s: seq<Customer>)
  {
    forall i, j :: 0 <= i < j < |s| ==> Ahead(f, desc, s[i], s[j])
  }

  lemma AheadIrreflexive(f: Field, desc: bool, x: Customer)
    ensures !Ahead(f, desc, x, x)
  {
    var k := KeyOf(f, x);
    if k.StrKey? {
      Text.LessIrreflexive(k.s);
    }
  }

  /** Of two records at most one is ahead of the other, and one that is ahead may not follow it. */
  lemma AheadExclusive(f: Field, desc: bool, x: Customer, y: Customer)
    ensures Ahead(f, desc, x, y) ==> !Ahead(f, desc, y, x) && !InOrder(f, desc, y, x)
  {
    if Ahead(f, desc, x, y) {
      if desc {
        KeyLessStrict(KeyOf(f, y), KeyOf(f, x));
      } else {
        KeyLessStrict(KeyOf(f, x), KeyOf(f, y));
      }
    }
  }

  /** Every other record of a strictly ordered list comes after its head. */
  lemma StrictHeadAhead(f: Field, desc: bool, s: seq<Customer>, x: Customer)
    requires StrictlySorted(f, desc, s) && x in s
    ensures x == s[0] || Ahead(f, desc, s[0], x)
  {
    var k :| 0 <= k < |s| && s[k] == x;
    if k > 0 {
      assert Ahead(f, desc, s[0], s[k]);
    }
  }

  lemma AheadTransitive(f: Field, desc: bool, x: Customer, y: Customer, z: Customer)
    requires Ahead(f, desc, x, y) && Ahead(f, desc, y, z)
    ensures Ahead(f, desc, x, z)
  {
    if desc {
      KeyLessTransitive(KeyOf(f, z), KeyOf(f, y), KeyOf(f, x));
    } else {
      KeyLessTransitive(KeyOf(f, x), KeyOf(f, y), KeyOf(f, z));
    }
  }

  /** A list each of whose elements is strictly ahead of the next is strictly ordered throughout. */
  lemma {:induction false} ChainStrictlySorted(f: Field, desc: bool, s: seq<Customer>)
    requires forall i :: 0 <= i < |s| - 1 ==> Ahead(f, desc, s[i], s[i + 1])
    ensures StrictlySorted(f, desc, s)
    decreases |s|
  {
    if |s| > 1 {
      var t := s[1..];
      forall i | 0 <= i < |t| - 1 ensures Ahead(f, desc, t[i], t[i + 1]) {
        assert t[i] == s[i + 1] && t[i + 1] == s[i + 2];
      }
      ChainStrictlySorted(f, desc, t);
      forall i, j | 0 <= i < j < |s| ensures Ahead(f, desc, s[i], s[j]) {
        assert s[j] == t[j - 1];
        if i > 0 {
          assert s[i] == t[i - 1];
        } else if j > 1 {
          AheadTransitive(f, desc, s[0], s[1], s[j]);
        }
      }
    }
  }

  lemma StrictlySortedTail(f: Field, desc: bool, s: seq<Customer>)
    requires s != [] && StrictlySorted(f, desc, s)
    ensures StrictlySorted(f, desc, s[1..]) && s[0] !in s[1..]
  {
    forall i, j | 0 <= i < j < |s[1..]| ensures Ahead(f, desc, s[1..][i], s[1..][j]) {
      assert s[1..][i] == s[i + 1] && s[1..][j] == s[j + 1];
    }
    forall k | 0 <= k < |s[1..]| ensures s[1..][k] != s[0] {
      assert Ahead(f, desc, s[0], s[k + 1]);
      AheadIrreflexive(f, desc, s[0]);
    }
  }

  lemma SortedTail(f: Field, desc: bool, s: seq<Customer>)
    requires s != [] && Sorted(f, desc, s)
    ensures Sorted(f, desc, s[1..])
  {
    forall i, j | 0 <= i < j < |s[1..]| ensures InOrder(f, desc, s[1..][i], s[1..][j]) {
      assert s[1..][i] == s[i + 1] && s[1..][j] == s[j + 1];
    }
  }

  lemma MultisetTails(a: seq<Customer>, b: seq<Customer>)
    requires a != [] && b != [] && a[0] == b[0] && multiset(a) == multiset(b)
    ensures multiset(a[1..]) == multiset(b[1..])
  {
    assert a == [a[0]] + a[1..] && b == [b[0]] + b[1..];
    assert multiset(a[1..]) == multiset(a) - multiset{a[0]};
    assert multiset(b[1..]) == multiset(b) - multiset{b[0]};
  }

  lemma SortedHeadsAgree(f: Field, desc: bool, a: seq<Customer>, b: seq<Customer>)
    requires a != [] && Sorted(f, desc, a) && StrictlySorted(f, desc, b) && multiset(a) == multiset(b)
    ensures b != [] && a[0] == b[0]
  {
    assert a[0] in multiset(b);
    StrictHeadAhead(f, desc, b, a[0]);
    assert b[0] in multiset(a);
    var m :| 0 <= m < |a| && a[m] == b[0];
    if m > 0 {
      assert InOrder(f, desc, a[0], a[m]);
    }
    AheadExclusive(f, desc, b[0], a[0]);
  }

  /**
   * The order is determined by the records when keys are distinct: an ordered
   * permutation of a strictly ordered list is that list.
   */
  lemma {:induction false} SortedUnique(f: Field, desc: bool, a: seq<Customer>, b: seq<Customer>)
    requires Sorted(f, desc, a) && StrictlySorted(f, desc, b) && multiset(a) == multiset(b)
    ensures a == b
    decreases |a|
  {
    if a == [] {
      assert |b| == |multiset(b)| == 0;
    } else {
      SortedHeadsAgree(f, desc, a, b);
      MultisetTails(a, b);
      SortedTail(f, desc, a);
      StrictlySortedTail(f, desc, b);
      SortedUnique(f, desc, a[1..], b[1..]);
      assert a == [a[0]] + a[1..] && b == [b[0]] + b[1..];
    }
  }

  lemma NoMembersEmpty(s: seq<Customer>)
    ensures (forall c :: c !in s) ==> s == []
  {
    if s != [] {
      assert s[0] in s;
    }
  }

  /** Two strictly ordered lists with the same members are equal. */
  lemma {:induction false} StrictlySortedUnique(f: Field, desc: bool, a: seq<Customer>, b: seq<Customer>)
    requires StrictlySorted(f, desc, a) && StrictlySorted(f, desc, b)
    requires forall c :: c in a <==> c in b
    ensures a == b
    decreases |a|
  {
    if a == [] {
      NoMembersEmpty(b);
    } else {
      assert a[0] in a && b[0] in b;
      StrictHeadAhead(f, desc, b, a[0]);
      StrictHeadAhead(f, desc, a, b[0]);
      AheadExclusive(f, desc, a[0], b[0]);
      StrictlySortedTail(f, desc, a);
      StrictlySortedTail(f, desc, b);
      forall c ensures c in a[1..] <==> c in b[1..] {
        assert a == [a[0]] + a[1..] && b == [b[0]] + b[1..];
        assert c in a[1..] <==> c in a && c != a[0];
        assert c in b[1..] <==> c in b && c != b[0];
      }
      StrictlySortedUnique(f, desc, a[1..], b[1..]);
      assert a == [a[0]] + a[1..] && b == [b[0]] + b[1..];
    }
  }

  // ---------------------------------------------------------------------
  // The filters
  // ---------------------------------------------------------------------

  /** One list comprehension of `filter_customers`: the condition it keeps a record on. */
  datatype Criterion =
    | GenderIs(gender: string)
    | RiskProfileIs(riskProfile: string)
    | AumAtLeast(aumMin: int)
    | AumAtMost(aumMax: int)
    | AgeAtLeast(ageMin: int)
    | AgeAtMost(ageMax: int)
    | NameContains(search: string)

  predicate Holds(cr: Criterion, c: Customer)
  {
    match cr
    case GenderIs(g) => c.gender == g
    case RiskProfileIs(r) => c.riskProfile == r
    case AumAtLeast(n) => c.aum >= n
    case AumAtMost(n) => c.aum <= n
    case AgeAtLeast(n) => c.age >= n
    case AgeAtMost(n) => c.age <= n
    case NameContains(text) => Text.Contains(Text.Lower(c.name), Text.Lower(text))
  }

  /** `[c for c in data if <cr>]`. */
  function Keep(cr: Criterion, s: seq<Customer>): (r: seq<Customer>)
    ensures |r| <= |s|
    ensures forall c :: c in r <==> c in s && Holds(cr, c)
  {
    if s == [] then []
    else (if Holds(cr, s[0]) then [s[0]] else []) + Keep(cr, s[1..])
  }

  /** The keyword arguments of `filter_customers`, with the same defaults. */
  datatype Params = Params(
    search: Option<string> := None,
    sortBy: Option<string> := None,
    sortDir: Option<string> := Some("desc"),
    gender: Option<string> := None,
    riskProfile: Option<string> := None,
    aumMin: Option<int> := None,
    aumMax: Option<int> := None,
    ageMin: Option<int> := None,
    ageMax: Option<int> := None)

  /** Python truthiness of an optional string: present and non-empty. */
  predicate Truthy(o: Option<string>)
  {
    o.Some? && o.value != ""
  }

  /** The comprehensions that `filter_customers` applies, in its order; the others are skipped. */
  function Criteria(p: Params): seq<Criterion>
  {
    (if Truthy(p.gender) then [GenderIs(p.gender.value)] else [])
    + (if Truthy(p.riskProfile) then [RiskProfileIs(p.riskProfile.value)] else [])
    + (if p.aumMin.Some? then [AumAtLeast(p.aumMin.value)] else [])
    + (if p.aumMax.Some? then [AumAtMost(p.aumMax.value)] else [])
    + (if p.ageMin.Some? then [AgeAtLeast(p.ageMin.value)] else [])
    + (if p.ageMax.Some? then [AgeAtMost(p.ageMax.value)] else [])
    + (if Truthy(p.search) then [NameContains(p.search.value)] else [])
  }

  /** Rebinds `data` to each comprehension in turn. */
  function ApplyAll(cs: seq<Criterion>, s: seq<Customer>): seq<Customer>
  {
    if cs == [] then s else ApplyAll(cs[1..], Keep(cs[0], s))
  }

  /** The data after the filter and search steps. */
  function Filtered(p: Params, data: seq<Customer>): seq<Customer>
  {
    ApplyAll(Criteria(p), data)
  }

  /** The reference meaning of the nine arguments: the conditions a returned record satisfies. */
  predicate Matches(p: Params, c: Customer)
  {
    && (Truthy(p.gender) ==> c.gender == p.gender.value)
    && (Truthy(p.riskProfile) ==> c.riskProfile == p.riskProfile.value)
    && (p.aumMin.Some? ==> p.aumMin.value <= c.aum)
    && (p.aumMax.Some? ==> c.aum <= p.aumMax.value)
    && (p.ageMin.Some? ==> p.ageMin.value <= c.age)
    && (p.ageMax.Some? ==> c.age <= p.ageMax.value)
    && (Truthy(p.search) ==> Text.Contains(Text.Lower(c.name), Text.Lower(p.search.value)))
  }

  /** The records of `s` that match, in their order in `s`. */
  function Select(p: Params, s: seq<Customer>): seq<Customer>
  {
    if s == [] then []
    else (if Matches(p, s[0]) then [s[0]] else []) + Select(p, s[1..])
  }

  predicate AllHold(cs: seq<Criterion>, c: Customer)
  {
    forall cr :: cr in cs ==> Holds(cr, c)
  }

  function SelectAll(cs: seq<Criterion>, s: seq<Customer>): seq<Customer>
  {
    if s == [] then []
    else (if AllHold(cs, s[0]) then [s[0]] else []) + SelectAll(cs, s[1..])
  }

  lemma {:induction false} SelectAllKeep(cr: Criterion, cs: seq<Criterion>, s: seq<Customer>)
    ensures SelectAll(cs, Keep(cr, s)) == SelectAll([cr] + cs, s)
  {
    if s != [] {
      SelectAllKeep(cr, cs, s[1..]);
      var kept := Keep(cr, s[1..]);
      assert AllHold([cr] + cs, s[0]) <==> Holds(cr, s[0]) && AllHold(cs, s[0]);
      if Holds(cr, s[0]) {
        assert Keep(cr, s) == [s[0]] + kept;
        assert ([s[0]] + kept)[1..] == kept;
      } else {
        assert Keep(cr, s) == kept;
      }
    }
  }

  lemma {:induction false} SelectAllEmpty(s: seq<Customer>)
    ensures SelectAll([], s) == s
  {
    if s != [] {
      SelectAllEmpty(s[1..]);
      assert s == [s[0]] + s[1..];
    }
  }

  lemma {:induction false} ApplyAllIsSelectAll(cs: seq<Criterion>, s: seq<Customer>)
    ensures ApplyAll(cs, s) == SelectAll(cs, s)
    decreases |cs|
  {
    if cs == [] {
      SelectAllEmpty(s);
    } else {
      ApplyAllIsSelectAll(cs[1..], Keep(cs[0], s));
      SelectAllKeep(cs[0], cs[1..], s);
      assert [cs[0]] + cs[1..] == cs;
    }
  }

  lemma AllHoldAppend(a: seq<Criterion>, b: seq<Criterion>, c: Customer)
    ensures AllHold(a + b, c) <==> AllHold(a, c) && AllHold(b, c)
  {
    if AllHold(a, c) && AllHold(b, c) {
      forall cr | cr in a + b ensures Holds(cr, c) {
        assert cr in a || cr in b;
      }
    }
  }

  lemma AllHoldOne(cr: Criterion, c: Customer)
    ensures AllHold([cr], c) <==> Holds(cr, c)
  {
    assert cr in [cr];
  }

  /** A record passes every comprehension exactly when it matches the arguments. */
  lemma MatchesCriteria(p: Params, c: Customer)
    ensures Matches(p, c) <==> AllHold(Criteria(p), c)
  {
    var g := if Truthy(p.gender) then [GenderIs(p.gender.value)] else [];
    var rp := if Truthy(p.riskProfile) then [RiskProfileIs(p.riskProfile.value)] else [];
    var a0 := if p.aumMin.Some? then [AumAtLeast(p.aumMin.value)] else [];
    var a1 := if p.aumMax.Some? then [AumAtMost(p.aumMax.value)] else [];
    var g0 := if p.ageMin.Some? then [AgeAtLeast(p.ageMin.value)] else [];
    var g1 := if p.ageMax.Some? then [AgeAtMost(p.ageMax.value)] else [];
    var sr := if Truthy(p.search) then [NameContains(p.search.value)] else [];
    assert Criteria(p) == g + rp + a0 + a1 + g0 + g1 + sr;
    AllHoldAppend(g + rp + a0 + a1 + g0 + g1, sr, c);
    AllHoldAppend(g + rp + a0 + a1 + g0, g1, c);
    AllHoldAppend(g + rp + a0 + a1, g0, c);
    AllHoldAppend(g + rp + a0, a1, c);
    AllHoldAppend(g + rp, a0, c);
    AllHoldAppend(g, rp, c);
    if Truthy(p.gender) { AllHoldOne(GenderIs(p.gender.value), c); }
    if Truthy(p.riskProfile) { AllHoldOne(RiskProfileIs(p.riskProfile.value), c); }
    if p.aumMin.Some? { AllHoldOne(AumAtLeast(p.aumMin.value), c); }
    if p.aumMax.Some? { AllHoldOne(AumAtMost(p.aumMax.value), c); }
    if p.ageMin.Some? { AllHoldOne(AgeAtLeast(p.ageMin.value), c); }
    if p.ageMax.Some? { AllHoldOne(AgeAtMost(p.ageMax.value), c); }
    if Truthy(p.search) { AllHoldOne(NameContains(p.search.value), c); }
  }

  lemma {:induction false} SelectIsSelectAll(p: Params, s: seq<Customer>)
    ensures Select(p, s) == SelectAll(Criteria(p), s)
  {
    if s != [] {
      SelectIsSelectAll(p, s[1..]);
      MatchesCriteria(p, s[0]);
    }
  }

  /** The chain of comprehensions removes exactly the non-matching records and keeps the order. */
  lemma FilteredIsSelect(p: Params, data: seq<Customer>)
    ensures Filtered(p, data) == Select(p, data)
  {
    ApplyAllIsSelectAll(Criteria(p), data);
    SelectIsSelectAll(p, data);
  }

  lemma {:induction false} SelectMembers(p: Params, s: seq<Customer>)
    ensures forall c :: c in Select(p, s) <==> c in s && Matches(p, c)
    ensures |Select(p, s)| <= |s|
  {
    if s != [] {
      SelectMembers(p, s[1..]);
      assert s == [s[0]] + s[1..];
    }
  }

  /** `r` is `s` with some elements removed and the rest in the same order. */
  predicate IsSubsequence(r: seq<Customer>, s: seq<Customer>)
    decreases |s|
  {
    if s == [] then r == []
    else IsSubsequence(r, s[1..]) || (r != [] && r[0] == s[0] && IsSubsequence(r[1..], s[1..]))
  }

  lemma {:induction false} SelectSubsequence(p: Params, s: seq<Customer>)
    ensures IsSubsequence(Select(p, s), s)
  {
    if s != [] {
      SelectSubsequence(p, s[1..]);
      if Matches(p, s[0]) {
        assert ([s[0]] + Select(p, s[1..]))[1..] == Select(p, s[1..]);
      } else {
        assert Select(p, s) == Select(p, s[1..]);
      }
    }
  }

  lemma {:induction false} SelectNone(p: Params, s: seq<Customer>)
    requires forall c :: c in s ==> !Matches(p, c)
    ensures Select(p, s) == []
  {
    if s != [] {
      assert s[0] in s;
      assert forall c :: c in s[1..] ==> c in s;
      SelectNone(p, s[1..]);
    }
  }

  /** Filtering keeps a strict order, being a subsequence. */
  lemma {:induction false} SelectStrictlySorted(p: Params, f: Field, desc: bool, s: seq<Customer>)
    requires StrictlySorted(f, desc, s)
    ensures StrictlySorted(f, desc, Select(p, s))
  {
    if s != [] {
      StrictlySortedTail(f, desc, s);
      SelectStrictlySorted(p, f, desc, s[1..]);
      SelectMembers(p, s[1..]);
      var rest := Select(p, s[1..]);
      if Matches(p, s[0]) {
        forall j | 0 <= j < |rest| ensures Ahead(f, desc, s[0], rest[j]) {
          assert rest[j] in s[1..];
          var k :| 0 <= k < |s[1..]| && s[1..][k] == rest[j];
          assert s[k + 1] == rest[j];
        }
        forall i, j | 0 <= i < j < |Select(p, s)| ensures Ahead(f, desc, Select(p, s)[i], Select(p, s)[j]) {
          assert Select(p, s) == [s[0]] + rest;
          if i > 0 {
            assert Select(p, s)[i] == rest[i - 1];
          }
          assert Select(p, s)[j] == rest[j - 1];
        }
      } else {
        assert Select(p, s) == rest;
      }
    }
  }

  /** Filtering again by the same arguments keeps everything. */
  lemma {:induction false} SelectOfMatching(p: Params, s: seq<Customer>)
    requires forall c :: c in s ==> Matches(p, c)
    ensures Select(p, s) == s
  {
    if s != [] {
      assert s[0] in s;
      assert forall c :: c in s[1..] ==> c in s;
      SelectOfMatching(p, s[1..]);
      assert s == [s[0]] + s[1..];
    }
  }

  // ---------------------------------------------------------------------
  // filter_customers and get_customers
  // ---------------------------------------------------------------------

  /** The exception `data[0]` raises on an empty list. */
  datatype QueryError = IndexError

  /**
   * `filter_customers` run on a given starting list: filter, search, then sort
   * when `sort_by` is truthy and names a key of the first remaining record.
   */
  function FilterData(data: seq<Customer>, p: Params): Result<seq<Customer>, QueryError>
  {
    var filtered := Filtered(p, data);
    if !Truthy(p.sortBy) then Success(filtered)
    else if filtered == [] then Failure(IndexError)
    else match FieldNamed(p.sortBy.value)
      case None => Success(filtered)
      case Some(f) => Success(SortBy(f, p.sortDir == Some("desc"), filtered))
  }

  /** `filter_customers`: the query always starts from `CUSTOMERS`. */
  function FilterCustomers(p: Params): Result<seq<Customer>, QueryError>
  {
    FilterData(CUSTOMERS, p)
  }

  /** The `GET /customers/` handler hands its nine query parameters to `filter_customers` unchanged. */
  function GetCustomers(p: Params): Result<seq<Customer>, QueryError>
  {
    FilterCustomers(Params(
      search := p.search, sortBy := p.sortBy, sortDir := p.sortDir,
      gender := p.gender, riskProfile := p.riskProfile,
      aumMin := p.aumMin, aumMax := p.aumMax, ageMin := p.ageMin, ageMax := p.ageMax))
  }

  // ---------------------------------------------------------------------
  // Properties of the query
  // ---------------------------------------------------------------------

  /** The fixture holds twenty records with pairwise distinct ids. */
  lemma FixtureIdsDistinct()
    ensures |CUSTOMERS| == 20
    ensures forall i, j :: 0 <= i < j < |CUSTOMERS| ==> CUSTOMERS[i].id != CUSTOMERS[j].id
  {
  }

  /** Every fixture record has a positive age and a positive aum. */
  lemma FixtureAmountsPositive()
    ensures forall c :: c in CUSTOMERS ==> c.age > 0 && c.aum > 0
  {
  }

  /** Without an effective sort, the result is the fixture minus the non-matching records, in fixture order. */
  lemma UnsortedResult(p: Params)
    requires !Truthy(p.sortBy) || (FieldNamed(p.sortBy.value).None? && Select(p, CUSTOMERS) != [])
    ensures FilterCustomers(p) == Success(Select(p, CUSTOMERS))
    ensures IsSubsequence(Select(p, CUSTOMERS), CUSTOMERS)
    ensures |Select(p, CUSTOMERS)| <= 20
  {
    FilteredIsSelect(p, CUSTOMERS);
    SelectSubsequence(p, CUSTOMERS);
    SelectMembers(p, CUSTOMERS);
  }

  /** A successful query returns a rearrangement of the filtered records. */
  lemma FilterDataPermutes(data: seq<Customer>, p: Params, r: seq<Customer>)
    requires FilterData(data, p) == Success(r)
    ensures multiset(r) == multiset(Select(p, data))
  {
    FilteredIsSelect(p, data);
    if Truthy(p.sortBy) && FieldNamed(p.sortBy.value).Some? {
      SortByPermutes(FieldNamed(p.sortBy.value).value, p.sortDir == Some("desc"), Select(p, data));
    }
  }

  /** Whatever the sort, a record is returned exactly when it is in the fixture and matches every active filter. */
  lemma ResultMembers(p: Params, r: seq<Customer>)
    requires FilterCustomers(p) == Success(r)
    ensures forall c :: c in r <==> c in CUSTOMERS && Matches(p, c)
  {
    SelectMembers(p, CUSTOMERS);
    FilterDataPermutes(CUSTOMERS, p, r);
    forall c ensures c in r <==> c in Select(p, CUSTOMERS) {
      assert c in r <==> c in multiset(r);
    }
  }

  /** A non-empty `gender` or `riskProfile` is matched exactly. */
  lemma ExactMatchFilters(p: Params, r: seq<Customer>)
    requires FilterCustomers(p) == Success(r)
    ensures Truthy(p.gender) ==> forall c :: c in r ==> c.gender == p.gender.value
    ensures Truthy(p.riskProfile) ==> forall c :: c in r ==> c.riskProfile == p.riskProfile.value
  {
    ResultMembers(p, r);
  }

  /** `None` and `""` behave alike for the string arguments: both switch their step off. */
  lemma FalsyArgumentsIgnored(p: Params)
    ensures !Truthy(p.gender) ==> FilterCustomers(p) == FilterCustomers(p.(gender := None))
    ensures !Truthy(p.riskProfile) ==> FilterCustomers(p) == FilterCustomers(p.(riskProfile := None))
    ensures !Truthy(p.search) ==> FilterCustomers(p) == FilterCustomers(p.(search := None))
    ensures !Truthy(p.sortBy) ==> FilterCustomers(p) == FilterCustomers(p.(sortBy := None))
  {
    assert !Truthy(p.gender) ==> Criteria(p) == Criteria(p.(gender := None));
    assert !Truthy(p.riskProfile) ==> Criteria(p) == Criteria(p.(riskProfile := None));
    assert !Truthy(p.search) ==> Criteria(p) == Criteria(p.(search := None));
    assert Criteria(p) == Criteria(p.(sortBy := None));
  }

  /** Every given bound, 0 included, holds of every returned record. */
  lemma BoundFilters(p: Params, r: seq<Customer>)
    requires FilterCustomers(p) == Success(r)
    ensures p.aumMin.Some? ==> forall c :: c in r ==> p.aumMin.value <= c.aum
    ensures p.aumMax.Some? ==> forall c :: c in r ==> c.aum <= p.aumMax.value
    ensures p.ageMin.Some? ==> forall c :: c in r ==> p.ageMin.value <= c.age
    ensures p.ageMax.Some? ==> forall c :: c in r ==> c.age <= p.ageMax.value
  {
    ResultMembers(p, r);
  }

  /** When no fixture record matches, the result is empty, or the `data[0]` failure if a sort was asked for. */
  lemma NothingMatches(p: Params)
    requires forall c :: c in CUSTOMERS ==> !Matches(p, c)
    ensures FilterCustomers(p) == if Truthy(p.sortBy) then Failure(IndexError) else Success([])
  {
    FilteredIsSelect(p, CUSTOMERS);
    SelectNone(p, CUSTOMERS);
  }

  /** An empty range leaves nothing, which then makes a requested sort fail on `data[0]`. */
  lemma EmptyRange(p: Params)
    requires (p.aumMin.Some? && p.aumMax.Some? && p.aumMin.value > p.aumMax.value)
          || (p.ageMin.Some? && p.ageMax.Some? && p.ageMin.value > p.ageMax.value)
    ensures FilterCustomers(p) == if Truthy(p.sortBy) then Failure(IndexError) else Success([])
  {
    NothingMatches(p);
  }

  /** An upper bound of 0 is applied, not skipped: every fixture record has a positive aum. */
  lemma ZeroBoundIsActive()
    ensures FilterCustomers(Params(aumMax := Some(0))) == Success([])
  {
    FixtureAmountsPositive();
    NothingMatches(Params(aumMax := Some(0)));
  }

  /** A non-empty search keeps only the records whose lowercased name contains the lowercased search text. */
  lemma SearchFilter(p: Params, r: seq<Customer>)
    requires FilterCustomers(p) == Success(r) && Truthy(p.search)
    ensures forall c :: c in r ==> Text.Contains(Text.Lower(c.name), Text.Lower(p.search.value))
  {
    ResultMembers(p, r);
  }

  /**
   * With a `sort_by` naming a field, the result is the filtered list ordered by
   * that field (descending only for `sort_dir == "desc"`), holding the same
   * records, with records of equal key in their filtered order.
   */
  lemma SortedResult(p: Params, r: seq<Customer>)
    requires FilterCustomers(p) == Success(r)
    requires Truthy(p.sortBy) && FieldNamed(p.sortBy.value).Some?
    ensures Sorted(FieldNamed(p.sortBy.value).value, p.sortDir == Some("desc"), r)
    ensures multiset(r) == multiset(Select(p, CUSTOMERS))
    ensures forall k :: WithKey(FieldNamed(p.sortBy.value).value, k, r)
                     == WithKey(FieldNamed(p.sortBy.value).value, k, Select(p, CUSTOMERS))
  {
    FilteredIsSelect(p, CUSTOMERS);
    FilterDataPermutes(CUSTOMERS, p, r);
    var f, desc := FieldNamed(p.sortBy.value).value, p.sortDir == Some("desc");
    SortBySorted(f, desc, Select(p, CUSTOMERS));
    forall k ensures WithKey(f, k, r) == WithKey(f, k, Select(p, CUSTOMERS)) {
      SortByStable(f, desc, k, Select(p, CUSTOMERS));
    }
  }

  /** The query fails exactly when a truthy `sort_by` meets an empty filtered list. */
  lemma FailsExactlyOnEmptySort(p: Params)
    ensures FilterCustomers(p).Failure? <==> Truthy(p.sortBy) && Select(p, CUSTOMERS) == []
  {
    FilteredIsSelect(p, CUSTOMERS);
  }

  /** Running the query again on its own result, with the same arguments, returns that result. */
  lemma FilterDataIdempotent(data: seq<Customer>, p: Params, r: seq<Customer>)
    requires FilterData(data, p) == Success(r)
    ensures FilterData(r, p) == Success(r)
  {
    FilteredIsSelect(p, data);
    FilteredIsSelect(p, r);
    SelectMembers(p, data);
    var filtered := Select(p, data);
    FilterDataPermutes(data, p, r);
    forall c | c in r ensures Matches(p, c) {
      assert c in multiset(filtered);
    }
    SelectOfMatching(p, r);
    if Truthy(p.sortBy) && FieldNamed(p.sortBy.value).Some? {
      var f, desc := FieldNamed(p.sortBy.value).value, p.sortDir == Some("desc");
      SortBySorted(f, desc, filtered);
      SortBySortedIdentity(f, desc, r);
      assert |r| == |multiset(r)| == |multiset(filtered)| == |filtered|;
    }
  }

  // ---------------------------------------------------------------------
  // The query with the empty-list guard it evidently intends
  // ---------------------------------------------------------------------

  /**
   * The query as evidently intended: `sort_by` is looked up in the first record
   * only when there is one, so a requested sort of an empty list yields the
   * empty list instead of failing on `data[0]`.
   */
  function FilterDataGuarded(data: seq<Customer>, p: Params): seq<Customer>
  {
    var filtered := Filtered(p, data);
    if Truthy(p.sortBy) && filtered != [] && FieldNamed(p.sortBy.value).Some? then
      SortBy(FieldNamed(p.sortBy.value).value, p.sortDir == Some("desc"), filtered)
    else filtered
  }

  /** The guarded query returns what the query returns when that succeeds, and the empty list where it fails. */
  lemma GuardedAgrees(data: seq<Customer>, p: Params)
    ensures FilterData(data, p).Success? ==> FilterDataGuarded(data, p) == FilterData(data, p).value
    ensures FilterData(data, p).Failure? ==> FilterDataGuarded(data, p) == []
  {
  }

  /**
   * The guarded query never fails: it returns the matching records, ordered by
   * the named field if there is one, and nothing when nothing matches.
   */
  lemma GuardedResult(data: seq<Customer>, p: Params)
    ensures multiset(FilterDataGuarded(data, p)) == multiset(Select(p, data))
    ensures Truthy(p.sortBy) && FieldNamed(p.sortBy.value).Some? ==>
      Sorted(FieldNamed(p.sortBy.value).value, p.sortDir == Some("desc"), FilterDataGuarded(data, p))
    ensures Truthy(p.sortBy) && FieldNamed(p.sortBy.value).Some? ==>
      forall k :: WithKey(FieldNamed(p.sortBy.value).value, k, FilterDataGuarded(data, p))
               == WithKey(FieldNamed(p.sortBy.value).value, k, Select(p, data))
  {
    FilteredIsSelect(p, data);
    if Truthy(p.sortBy) && FieldNamed(p.sortBy.value).Some? {
      var f, desc := FieldNamed(p.sortBy.value).value, p.sortDir == Some("desc");
      SortByPermutes(f, desc, Select(p, data));
      SortBySorted(f, desc, Select(p, data));
      forall k ensures WithKey(f, k, FilterDataGuarded(data, p)) == WithKey(f, k, Select(p, data)) {
        SortByStable(f, desc, k, Select(p, data));
      }
    }
  }

  /** `get_customers` returns whatever `filter_customers` returns for the same arguments. */
  lemma GetCustomersPassThrough(p: Params)
    ensures GetCustomers(p) == FilterCustomers(p)
  {
  }
}
