/**
 * An ordered set with a user-supplied comparator, as `std::set<T, Compare>`
 * behaves when it is filled from a range: elements are kept in comparator
 * order, and an element equivalent to one already present (neither is less
 * than the other) is not inserted. The set is represented by the sequence
 * its iteration visits.
 */
module OrderedSet {

  /** Neither element orders before the other. */
  predicate Equivalent<T>(less: (T, T) -> bool, a: T, b: T)
  {
    !less(a, b) && !less(b, a)
  }

  /**
   * `less` is a strict weak order on the elements of xs: irreflexive,
   * transitive, and with a transitive equivalence.
   */
  predicate StrictWeakOrderOn<T(==)>(less: (T, T) -> bool, xs: seq<T>)
  {
    && (forall a | a in xs :: !less(a, a))
    && (forall a, b, c | a in xs && b in xs && c in xs && less(a, b) && less(b, c) :: less(a, c))
    && (forall a, b, c | a in xs && b in xs && c in xs && Equivalent(less, a, b) && Equivalent(less, b, c)
          :: Equivalent(less, a, c))
  }

  /** Each element is less than every later one. */
  predicate StrictlySorted<T>(less: (T, T) -> bool, s: seq<T>)
  {
    forall i, j | 0 <= i < j < |s| :: less(s[i], s[j])
  }

  /** y occurs in xs, and no earlier element of xs is equivalent to it. */
  predicate FirstOfClass<T(==)>(less: (T, T) -> bool, y: T, xs: seq<T>)
  {
    exists i | 0 <= i < |xs| :: xs[i] == y && forall j | 0 <= j < i :: !Equivalent(less, xs[j], y)
  }

  /**
   * Inserting x: skip the elements less than x, then place x before the
   * first element it is less than, unless that element is equivalent to x,
   * in which case the set is unchanged.
   */
  function Inserted<T(==)>(s: seq<T>, x: T, less: (T, T) -> bool): (r: seq<T>)
    ensures |s| <= |r| <= |s| + 1
  {
    if s == [] then [x]
    else if less(s[0], x) then [s[0]] + Inserted(s[1..], x, less)
    else if less(x, s[0]) then [x] + s
    else s
  }

  /** Insertion adds nothing but x, and x is either added or already represented by an equivalent element. */
  lemma {:induction false} InsertedElements<T>(s: seq<T>, x: T, less: (T, T) -> bool)
    ensures forall y | y in Inserted(s, x, less) :: y in s || y == x
    ensures x in Inserted(s, x, less) || exists y | y in s :: Equivalent(less, x, y)
  {
    if s != [] {
      if less(s[0], x) {
        InsertedElements(s[1..], x, less);
        assert s == [s[0]] + s[1..];
      } else if !less(x, s[0]) {
        assert s[0] in s && Equivalent(less, x, s[0]);
      }
    }
  }

  /** The set built by inserting the elements of xs one after the other. */
  function Built<T(==)>(xs: seq<T>, less: (T, T) -> bool): (r: seq<T>)
    ensures |r| <= |xs|
  {
    if xs == [] then [] else Inserted(Built(xs[..|xs| - 1], less), xs[|xs| - 1], less)
  }

  // ---------------------------------------------------------------------
  // The operations

  /** `insert`: scan for the first element not less than x, then insert unless it is equivalent to x. */
  method Insert<T(==)>(s: seq<T>, x: T, less: (T, T) -> bool) returns (r: seq<T>)
    ensures r == Inserted(s, x, less)
  {
    var i := 0;
    while i < |s| && less(s[i], x)
      invariant 0 <= i <= |s|
      invariant Inserted(s, x, less) == s[..i] + Inserted(s[i..], x, less)
    {
      InsertedUnfold(s[i..], x, less);
      assert s[i..][1..] == s[i + 1..];
      ghost var rest := Inserted(s[i + 1..], x, less);
      assert Inserted(s[i..], x, less) == [s[i]] + rest;
      assert s[..i] + ([s[i]] + rest) == s[..i + 1] + rest;
      i := i + 1;
    }
    if i < |s| {
      InsertedUnfold(s[i..], x, less);
    }
    if i < |s| && !less(x, s[i]) {
      assert Inserted(s[i..], x, less) == s[i..];
      assert s[..i] + s[i..] == s;
      r := s;
    } else {
      assert Inserted(s[i..], x, less) == [x] + s[i..];
      r := s[..i] + ([x] + s[i..]);
    }
  }

  /** One step of Inserted on a non-empty set, by how x compares with the head. */
  lemma InsertedUnfold<T>(s: seq<T>, x: T, less: (T, T) -> bool)
    requires s != []
    ensures less(s[0], x) ==> Inserted(s, x, less) == [s[0]] + Inserted(s[1..], x, less)
    ensures !less(s[0], x) && less(x, s[0]) ==> Inserted(s, x, less) == [x] + s
    ensures !less(s[0], x) && !less(x, s[0]) ==> Inserted(s, x, less) == s
  {
  }

  /** The range constructor: insert every element of xs in order into an empty set. */
  method Build<T(==)>(xs: seq<T>, less: (T, T) -> bool) returns (r: seq<T>)
    ensures r == Built(xs, less)
  {
    r := [];
    for i := 0 to |xs|
      invariant r == Built(xs[..i], less)
    {
      assert xs[..i + 1][..i] == xs[..i];
      r := Insert(r, xs[i], less);
    }
    assert xs[..|xs|] == xs;
  }

  /** Building from xs followed by x inserts x into the set built from xs. */
  lemma BuiltSnoc<T>(xs: seq<T>, x: T, less: (T, T) -> bool)
    ensures Built(xs + [x], less) == Inserted(Built(xs, less), x, less)
  {
    assert (xs + [x])[..|xs|] == xs;
  }

  // ---------------------------------------------------------------------
  // What insertion guarantees

  lemma StrictWeakOrderOnSubset<T>(less: (T, T) -> bool, xs: seq<T>, ys: seq<T>)
    requires StrictWeakOrderOn(less, xs)
    requires forall y | y in ys :: y in xs
    ensures StrictWeakOrderOn(less, ys)
  {
  }

  /** Insertion keeps the set strictly sorted. */
  lemma {:induction false} InsertedSorted<T>(s: seq<T>, x: T, less: (T, T) -> bool)
    requires StrictWeakOrderOn(less, s + [x])
    requires StrictlySorted(less, s)
    ensures StrictlySorted(less, Inserted(s, x, less))
  {
    if s != [] {
      if less(s[0], x) {
        TailOfSnoc(less, s, x);
        InsertedSorted(s[1..], x, less);
        InsertedSortedPastHead(s, x, less);
      } else if less(x, s[0]) {
        BelowHead(s, x, less);
      }
    }
  }

  /** The tail of s + [x] keeps the strict weak order. */
  lemma TailOfSnoc<T>(less: (T, T) -> bool, s: seq<T>, x: T)
    requires s != [] && StrictWeakOrderOn(less, s + [x])
    ensures StrictWeakOrderOn(less, s[1..] + [x])
  {
    forall y | y in s[1..] + [x] ensures y in s + [x] {
      if y != x {
        var j :| 0 <= j < |s[1..]| && s[1..][j] == y;
        assert s[j + 1] == y;
      }
    }
    StrictWeakOrderOnSubset(less, s + [x], s[1..] + [x]);
  }

  /** An x below the head of a sorted s is below every element of s. */
  lemma BelowHead<T>(s: seq<T>, x: T, less: (T, T) -> bool)
    requires StrictWeakOrderOn(less, s + [x])
    requires StrictlySorted(less, s)
    requires s != [] && less(x, s[0])
    ensures forall j | 0 <= j < |s| :: less(x, s[j])
  {
    var xs := s + [x];
    forall j | 0 < j < |s| ensures less(x, s[j]) {
      assert s[0] in xs && s[j] in xs && x in xs;
    }
  }

  /** Insertion past the head: the head stays first and the rest is sorted. */
  lemma InsertedSortedPastHead<T>(s: seq<T>, x: T, less: (T, T) -> bool)
    requires s != [] && less(s[0], x)
    requires StrictlySorted(less, s)
    requires StrictlySorted(less, Inserted(s[1..], x, less))
    ensures StrictlySorted(less, Inserted(s, x, less))
  {
    var t := Inserted(s[1..], x, less);
    InsertedElements(s[1..], x, less);
    InsertedUnfold(s, x, less);
    forall y | y in t ensures less(s[0], y) {
      if y != x {
        var j :| 0 <= j < |s[1..]| && s[1..][j] == y;
        assert s[j + 1] == y;
      }
    }
    assert Inserted(s, x, less) == [s[0]] + t;
    forall i, j | 0 <= i < j < |t| + 1 ensures less(([s[0]] + t)[i], ([s[0]] + t)[j]) {
      if i == 0 {
        assert t[j - 1] in t;
      }
    }
  }

  /**
   * Insertion leaves the set unchanged exactly when an equivalent element is
   * present; otherwise it adds x and nothing else.
   */
  lemma {:induction false} InsertedContents<T>(s: seq<T>, x: T, less: (T, T) -> bool)
    requires StrictWeakOrderOn(less, s + [x])
    requires StrictlySorted(less, s)
    ensures (exists y | y in s :: Equivalent(less, x, y)) ==> Inserted(s, x, less) == s
    ensures (forall y | y in s :: !Equivalent(less, x, y)) ==>
      multiset(Inserted(s, x, less)) == multiset(s) + multiset{x}
  {
    if s != [] {
      if less(s[0], x) {
        TailOfSnoc(less, s, x);
        InsertedContents(s[1..], x, less);
        InsertedContentsPastHead(s, x, less);
      } else if less(x, s[0]) {
        BelowHead(s, x, less);
        forall y | y in s ensures !Equivalent(less, x, y) {
          var j :| 0 <= j < |s| && s[j] == y;
          assert less(x, s[j]);
        }
      } else {
        assert s[0] in s;
      }
    }
  }

  /** Insertion past the head: the contents change as they do in the tail. */
  lemma InsertedContentsPastHead<T>(s: seq<T>, x: T, less: (T, T) -> bool)
    requires s != [] && less(s[0], x)
    requires (exists y | y in s[1..] :: Equivalent(less, x, y)) ==> Inserted(s[1..], x, less) == s[1..]
    requires (forall y | y in s[1..] :: !Equivalent(less, x, y)) ==>
      multiset(Inserted(s[1..], x, less)) == multiset(s[1..]) + multiset{x}
    ensures (exists y | y in s :: Equivalent(less, x, y)) ==> Inserted(s, x, less) == s
    ensures (forall y | y in s :: !Equivalent(less, x, y)) ==>
      multiset(Inserted(s, x, less)) == multiset(s) + multiset{x}
  {
    assert s == [s[0]] + s[1..];
    if exists y | y in s :: Equivalent(less, x, y) {
      var y :| y in s && Equivalent(less, x, y);
      assert y != s[0];
      assert y in s[1..];
    }
  }

  /** Everything in the built set comes from xs. */
  lemma {:induction false} BuiltFromInput<T>(xs: seq<T>, less: (T, T) -> bool)
    ensures forall y | y in Built(xs, less) :: y in xs
  {
    if xs != [] {
      var p := xs[..|xs| - 1];
      BuiltFromInput(p, less);
      InsertedElements(Built(p, less), xs[|xs| - 1], less);
      forall y | y in Built(xs, less) ensures y in xs {
        if y != xs[|xs| - 1] {
          assert y in p;
          var j :| 0 <= j < |p| && p[j] == y;
          assert xs[j] == y;
        }
      }
    }
  }

  /**
   * The range constructor of std::set: the result is strictly sorted, every
   * input element has an equivalent element in it, and it holds exactly the
   * first input element of each equivalence class.
   */
  lemma {:induction false} BuiltIsOrderedSet<T>(xs: seq<T>, less: (T, T) -> bool)
    requires StrictWeakOrderOn(less, xs)
    ensures StrictlySorted(less, Built(xs, less))
    ensures forall x | x in xs :: exists y | y in Built(xs, less) :: Equivalent(less, x, y)
    ensures forall y :: y in Built(xs, less) <==> FirstOfClass(less, y, xs)
  {
    if xs != [] {
      var p, x := xs[..|xs| - 1], xs[|xs| - 1];
      assert xs == p + [x];
      StrictWeakOrderOnSubset(less, xs, p);
      BuiltIsOrderedSet(p, less);
      var b := Built(p, less);
      BuiltFromInput(p, less);
      StrictWeakOrderOnSubset(less, xs, b + [x]);
      InsertedSorted(b, x, less);
      InsertedContents(b, x, less);
      FirstOfClassSnoc(less, p, x);
      if exists y | y in b :: Equivalent(less, x, y) {
        InsertSkipsEquivalent(less, p, x, b);
      } else {
        InsertAddsNew(less, p, x, b, Built(xs, less));
      }
    }
  }

  /** The first elements of their classes in p + [x]: those of p, and x when no element of p is equivalent to it. */
  lemma FirstOfClassSnoc<T>(less: (T, T) -> bool, p: seq<T>, x: T)
    ensures forall y :: FirstOfClass(less, y, p + [x]) <==>
      FirstOfClass(less, y, p) || (y == x && forall j | 0 <= j < |p| :: !Equivalent(less, p[j], x))
  {
    var xs := p + [x];
    forall y | FirstOfClass(less, y, p) ensures FirstOfClass(less, y, xs) {
      var i :| 0 <= i < |p| && p[i] == y && forall j | 0 <= j < i :: !Equivalent(less, p[j], y);
      assert xs[i] == y && forall j | 0 <= j < i :: xs[j] == p[j];
    }
    forall y | FirstOfClass(less, y, xs)
      ensures FirstOfClass(less, y, p) || (y == x && forall j | 0 <= j < |p| :: !Equivalent(less, p[j], x))
    {
      var i :| 0 <= i < |xs| && xs[i] == y && forall j | 0 <= j < i :: !Equivalent(less, xs[j], y);
      assert forall j | 0 <= j < i && j < |p| :: p[j] == xs[j];
      if i < |p| {
        assert p[i] == y;
      }
    }
    forall y | y == x && forall j | 0 <= j < |p| :: !Equivalent(less, p[j], x)
      ensures FirstOfClass(less, y, xs)
    {
      assert xs[|p|] == x && forall j | 0 <= j < |p| :: xs[j] == p[j];
    }
  }

  /** Inserting x when b already holds an element equivalent to it: x is not the first of its class. */
  lemma InsertSkipsEquivalent<T>(less: (T, T) -> bool, p: seq<T>, x: T, b: seq<T>)
    requires forall y :: y in b <==> FirstOfClass(less, y, p)
    requires forall z | z in p :: exists y | y in b :: Equivalent(less, z, y)
    requires exists y | y in b :: Equivalent(less, x, y)
    ensures !forall j | 0 <= j < |p| :: !Equivalent(less, p[j], x)
    ensures forall z | z in p + [x] :: exists y | y in b :: Equivalent(less, z, y)
  {
    var w :| w in b && Equivalent(less, x, w);
    var iw :| 0 <= iw < |p| && p[iw] == w && forall j | 0 <= j < iw :: !Equivalent(less, p[j], w);
    assert Equivalent(less, p[iw], x);
    forall z | z in p + [x] ensures exists y | y in b :: Equivalent(less, z, y) {
      if z !in p {
        assert z == x && Equivalent(less, z, w);
      }
    }
  }

  /** Inserting x when b holds nothing equivalent to it: x is the first of its class, and now represented. */
  lemma InsertAddsNew<T>(less: (T, T) -> bool, p: seq<T>, x: T, b: seq<T>, r: seq<T>)
    requires StrictWeakOrderOn(less, p + [x])
    requires forall y | y in b :: y in p
    requires forall z | z in p :: exists y | y in b :: Equivalent(less, z, y)
    requires forall y | y in b :: !Equivalent(less, x, y)
    requires multiset(r) == multiset(b) + multiset{x}
    ensures forall y :: y in r <==> y in b || y == x
    ensures forall j | 0 <= j < |p| :: !Equivalent(less, p[j], x)
    ensures forall z | z in p + [x] :: exists y | y in r :: Equivalent(less, z, y)
  {
    var xs := p + [x];
    forall y ensures y in r <==> y in b || y == x {
      assert y in r <==> y in multiset(r);
      assert y in b <==> y in multiset(b);
    }
    forall j | 0 <= j < |p| ensures !Equivalent(less, p[j], x) {
      assert p[j] in p;
      var y :| y in b && Equivalent(less, p[j], y);
      assert p[j] in xs && y in xs && x in xs;
      assert Equivalent(less, p[j], x) ==> Equivalent(less, x, p[j]) && Equivalent(less, x, y);
    }
    forall z | z in xs ensures exists y | y in r :: Equivalent(less, z, y) {
      if z !in p {
        assert z == x && x in xs;
        assert Equivalent(less, z, x);
      }
    }
  }
}
