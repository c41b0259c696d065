/**
 * Ordering Taifex option symbols by strike price. The five characters
 * from offset 3 hold the strike ("TXO03900A5" has strike field "03900");
 * symbols are compared by that field alone, as strings.
 */
module OptionSymbolOrder {
  import opened OrderedSet

  /** A symbol long enough for the strike field to start inside it. */
  type Symbol = s: string | |s| >= 3 witness "TXO"

  /** `substr(3, 5)`: the characters from offset 3, at most five of them. */
  function Strike(s: Symbol): (f: string)
    ensures |f| <= 5 && 3 + |f| <= |s|
    ensures forall i | 0 <= i < |f| :: f[i] == s[3 + i]
    ensures |f| == if |s| >= 8 then 5 else |s| - 3
  {
    if |s| >= 8 then s[3..8] else s[3..]
  }

  /** Lexicographic string order: the first differing character decides, and a proper prefix comes first. */
  function LexLess(a: string, b: string): (r: bool)
    ensures r ==> a != b && |b| > 0
  {
    if a == [] then b != []
    else if b == [] then false
    else a[0] < b[0] || (a[0] == b[0] && LexLess(a[1..], b[1..]))
  }

  /** The comparator: strike fields in lexicographic order. */
  function Cmp(lhs: Symbol, rhs: Symbol): (r: bool)
    ensures r ==> Strike(lhs) != Strike(rhs)
  {
    LexLess(Strike(lhs), Strike(rhs))
  }

  /** cmp holds exactly when lhs's strike field comes first in lexicographic order. */
  lemma CmpIsStrikeOrder(lhs: Symbol, rhs: Symbol)
    ensures Cmp(lhs, rhs) <==> LexBefore(Strike(lhs), Strike(rhs))
  {
    LexLessIsLexBefore(Strike(lhs), Strike(rhs));
  }

  // ---------------------------------------------------------------------
  // Lexicographic order

  /** a is a proper prefix of b, or they first differ at an index where a's character is smaller. */
  predicate LexBefore(a: string, b: string)
  {
    (|a| < |b| && a == b[..|a|])
    || exists k | 0 <= k < |a| && k < |b| :: a[..k] == b[..k] && a[k] < b[k]
  }

  /** LexLess agrees with the first-difference definition of lexicographic order. */
  lemma LexLessIsLexBefore(a: string, b: string)
    ensures LexLess(a, b) <==> LexBefore(a, b)
  {
    if LexLess(a, b) {
      LexLessGivesLexBefore(a, b);
    }
    if LexBefore(a, b) {
      LexBeforeGivesLexLess(a, b);
    }
  }

  lemma {:induction false} LexLessGivesLexBefore(a: string, b: string)
    requires LexLess(a, b)
    ensures LexBefore(a, b)
  {
    if a == [] {
      assert a == b[..0];
    } else if a[0] < b[0] {
      assert a[..0] == b[..0];
    } else {
      var a', b' := a[1..], b[1..];
      LexLessGivesLexBefore(a', b');
      assert a == [a[0]] + a' && b == [b[0]] + b';
      if |a'| < |b'| && a' == b'[..|a'|] {
        assert b[..|a|] == [b[0]] + b'[..|a'|];
      } else {
        var k :| 0 <= k < |a'| && k < |b'| && a'[..k] == b'[..k] && a'[k] < b'[k];
        assert a[..k + 1] == [a[0]] + a'[..k] && b[..k + 1] == [b[0]] + b'[..k];
        assert a[k + 1] < b[k + 1];
      }
    }
  }

  /** What LexBefore says about the first characters and the tails. */
  lemma LexBeforeHead(a: string, b: string)
    requires LexBefore(a, b) && a != [] && b != []
    ensures a[0] <= b[0]
    ensures a[0] == b[0] ==> LexBefore(a[1..], b[1..])
  {
    if |a| < |b| && a == b[..|a|] {
      assert a[0] == b[..|a|][0];
      assert a[1..] == b[1..][..|a| - 1];
    } else {
      var k :| 0 <= k < |a| && k < |b| && a[..k] == b[..k] && a[k] < b[k];
      if k > 0 {
        assert a[0] == a[..k][0] && b[0] == b[..k][0];
        assert a[1..][..k - 1] == a[..k][1..] && b[1..][..k - 1] == b[..k][1..];
        assert a[1..][k - 1] < b[1..][k - 1];
      }
    }
  }

  lemma {:induction false} LexBeforeGivesLexLess(a: string, b: string)
    requires LexBefore(a, b)
    ensures LexLess(a, b)
  {
    if a != [] && b != [] {
      LexBeforeHead(a, b);
      if a[0] == b[0] {
        LexBeforeGivesLexLess(a[1..], b[1..]);
      }
    }
  }

  lemma {:induction false} LexLessIrreflexive(a: string)
    ensures !LexLess(a, a)
  {
    if a != [] {
      LexLessIrreflexive(a[1..]);
    }
  }

  lemma {:induction false} LexLessTransitive(a: string, b: string, c: string)
    requires LexLess(a, b) && LexLess(b, c)
    ensures LexLess(a, c)
  {
    if a != [] && b != [] && c != [] && a[0] == b[0] && b[0] == c[0] {
      LexLessTransitive(a[1..], b[1..], c[1..]);
    }
  }

  /** Any two different strings are ordered one way or the other. */
  lemma {:induction false} LexLessTotal(a: string, b: string)
    ensures a == b || LexLess(a, b) || LexLess(b, a)
  {
    if a != [] && b != [] && a[0] == b[0] {
      LexLessTotal(a[1..], b[1..]);
      if a[1..] == b[1..] {
        assert a == [a[0]] + a[1..] && b == [b[0]] + b[1..];
      }
    }
  }

  // ---------------------------------------------------------------------
  // The comparator

  /** Two symbols are equivalent exactly when their strike fields are equal. */
  lemma CmpEquivalence(a: Symbol, b: Symbol)
    ensures Equivalent(Cmp, a, b) <==> Strike(a) == Strike(b)
  {
    LexLessTotal(Strike(a), Strike(b));
    LexLessIrreflexive(Strike(a));
  }

  /** The comparator is a strict weak order on any symbols. */
  lemma CmpStrictWeakOrder(xs: seq<Symbol>)
    ensures StrictWeakOrderOn(Cmp, xs)
  {
    forall a | a in xs ensures !Cmp(a, a) {
      LexLessIrreflexive(Strike(a));
    }
    forall a, b, c | a in xs && b in xs && c in xs && Cmp(a, b) && Cmp(b, c) ensures Cmp(a, c) {
      LexLessTransitive(Strike(a), Strike(b), Strike(c));
    }
    forall a, b, c | a in xs && b in xs && c in xs && Equivalent(Cmp, a, b) && Equivalent(Cmp, b, c)
      ensures Equivalent(Cmp, a, c)
    {
      CmpEquivalence(a, b);
      CmpEquivalence(b, c);
      CmpEquivalence(a, c);
    }
  }

  /** Characters outside offsets 3 to 7, such as the "TXO" prefix and the month-year suffix, never matter. */
  lemma CmpIgnoresOutsideStrike(a: Symbol, a': Symbol, b: Symbol)
    requires |a| == |a'| && forall i | 3 <= i < |a| && i < 8 :: a[i] == a'[i]
    ensures Cmp(a, b) == Cmp(a', b) && Cmp(b, a) == Cmp(b, a')
  {
    assert Strike(a) == Strike(a');
  }

  /**
   * The set iterates in strictly increasing strike order and keeps, for
   * each strike, the first symbol listed with it.
   */
  lemma OptionSetInStrikeOrder(xs: seq<Symbol>)
    ensures var r := Built(xs, Cmp); forall i, j | 0 <= i < j < |r| :: LexLess(Strike(r[i]), Strike(r[j]))
    ensures forall y :: y in Built(xs, Cmp) <==> FirstOfClass(Cmp, y, xs)
  {
    CmpStrictWeakOrder(xs);
    BuiltIsOrderedSet(xs, Cmp);
  }

  // ---------------------------------------------------------------------
  // The program's set

  /** The symbols the program sorts, in the order it lists them. */
  const OptionList: seq<Symbol> := ["TXO03900A5", "TXO24400A5", "TXO19800A5", "TXO18500A5", "TXO22000A5"]

  /** The set after each insertion from OptionList. */
  const OptionSteps: seq<seq<Symbol>> := [
    [],
    ["TXO03900A5"],
    ["TXO03900A5", "TXO24400A5"],
    ["TXO03900A5", "TXO19800A5", "TXO24400A5"],
    ["TXO03900A5", "TXO18500A5", "TXO19800A5", "TXO24400A5"],
    ["TXO03900A5", "TXO18500A5", "TXO19800A5", "TXO22000A5", "TXO24400A5"]
  ]

  /** Iterating the set built from the list visits the strikes in increasing order. */
  lemma OptionListSorted()
    ensures Built(OptionList, Cmp) == ["TXO03900A5", "TXO18500A5", "TXO19800A5", "TXO22000A5", "TXO24400A5"]
  {
    var xs, st := OptionList, OptionSteps;
    forall k | 0 <= k <= |xs| ensures Built(xs[..k], Cmp) == st[k] {
      OptionListSortedPrefix(k);
    }
    assert xs[..|xs|] == xs;
  }

  lemma {:induction false} OptionListSortedPrefix(k: nat)
    requires k <= |OptionList|
    ensures Built(OptionList[..k], Cmp) == OptionSteps[k]
  {
    if k > 0 {
      OptionListSortedPrefix(k - 1);
      BuiltSnoc(OptionList[..k - 1], OptionList[k - 1], Cmp);
      assert OptionList[..k - 1] + [OptionList[k - 1]] == OptionList[..k];
      OptionListStep(k);
    }
  }

  lemma OptionListStep(k: nat)
    requires 0 < k <= |OptionList|
    ensures Inserted(OptionSteps[k - 1], OptionList[k - 1], Cmp) == OptionSteps[k]
  {
    if k == 1 {
      OptionListStep1();
    } else if k == 2 {
      OptionListStep2();
    } else if k == 3 {
      OptionListStep3();
    } else if k == 4 {
      OptionListStep4();
    } else {
      OptionListStep5();
    }
  }

  lemma OptionListStep1()
    ensures Inserted<Symbol>([], "TXO03900A5", Cmp) == ["TXO03900A5"]
  {
    StrikeValues();
  }

  lemma OptionListStep2()
    ensures Inserted<Symbol>(["TXO03900A5"], "TXO24400A5", Cmp) == ["TXO03900A5", "TXO24400A5"]
  {
    StrikeValues();
  }

  lemma OptionListStep3()
    ensures Inserted<Symbol>(["TXO03900A5", "TXO24400A5"], "TXO19800A5", Cmp)
         == ["TXO03900A5", "TXO19800A5", "TXO24400A5"]
  {
    StrikeValues();
  }

  lemma OptionListStep4()
    ensures Inserted<Symbol>(["TXO03900A5", "TXO19800A5", "TXO24400A5"], "TXO18500A5", Cmp)
         == ["TXO03900A5", "TXO18500A5", "TXO19800A5", "TXO24400A5"]
  {
    StrikeValues();
  }

  lemma OptionListStep5()
    ensures Inserted<Symbol>(["TXO03900A5", "TXO18500A5", "TXO19800A5", "TXO24400A5"], "TXO22000A5", Cmp)
         == ["TXO03900A5", "TXO18500A5", "TXO19800A5", "TXO22000A5", "TXO24400A5"]
  {
    StrikeValues();
  }

  lemma StrikeValues()
    ensures Strike("TXO03900A5") == "03900" && Strike("TXO24400A5") == "24400"
    ensures Strike("TXO19800A5") == "19800" && Strike("TXO18500A5") == "18500"
    ensures Strike("TXO22000A5") == "22000"
  {
  }

  /** A second symbol with a strike already present is dropped: the first one listed stays. */
  lemma SameStrikeKeepsFirst()
    ensures Built<Symbol>(["TXO03900A5", "TXO03900B5"], Cmp) == ["TXO03900A5"]
  {
    assert Strike("TXO03900A5") == "03900" == Strike("TXO03900B5");
    LexLessIrreflexive("03900");
    BuiltSnoc<Symbol>(["TXO03900A5"], "TXO03900B5", Cmp);
    assert ["TXO03900A5"] + ["TXO03900B5"] == ["TXO03900A5", "TXO03900B5"];
    BuiltSnoc<Symbol>([], "TXO03900A5", Cmp);
    assert [] + ["TXO03900A5"] == ["TXO03900A5"];
  }
}
