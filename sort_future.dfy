/**
 * Ordering Taifex futures symbols by delivery month. A symbol ends in a
 * month code (A to L for January to December) followed by the last digit
 * of the delivery year, as in "TXFG4" for July 2024. Within one year the
 * month code decides; across years the digit decides, and because only the
 * last digit is written, a 9 followed by a 0 means the decade has wrapped.
 */
module FutureSymbolOrder {
  import opened Arithmetic
  import opened OrderedSet

  /** A symbol long enough to hold the month code and year digit. */
  type Symbol = s: string | |s| >= 2 witness "A0"

  function YearDigit(s: Symbol): char { s[|s| - 1] }

  function MonthCode(s: Symbol): char { s[|s| - 2] }

  function CharDistance(a: char, b: char): nat
  {
    if a as int >= b as int then a as int - b as int else b as int - a as int
  }

  /**
   * The comparator: same year digit, the earlier month code first; year
   * digits one apart, the smaller first; otherwise (the decade wrap) the
   * larger first.
   */
  function Cmp(lhs: Symbol, rhs: Symbol): (r: bool)
    ensures MonthCode(lhs) == MonthCode(rhs) && YearDigit(lhs) == YearDigit(rhs) ==> !r
    ensures YearDigit(lhs) == '9' && YearDigit(rhs) == '0' ==> r
    ensures YearDigit(lhs) == '0' && YearDigit(rhs) == '9' ==> !r
  {
    if YearDigit(lhs) == YearDigit(rhs) then MonthCode(lhs) < MonthCode(rhs)
    else if CharDistance(YearDigit(lhs), YearDigit(rhs)) == 1 then YearDigit(lhs) < YearDigit(rhs)
    else YearDigit(lhs) > YearDigit(rhs)
  }

  /**
   * The comparator with its last branch as written, which indexes rhs with
   * lhs's length. std::string defines the index one past the end, where it
   * reads the terminating '\0'; further out the behaviour is undefined.
   * On symbols of equal length, which is every symbol the program sorts,
   * it agrees with Cmp.
   */
  function CmpAsWritten(lhs: Symbol, rhs: Symbol): (r: bool)
    requires |lhs| <= |rhs| + 1
    ensures |lhs| == |rhs| ==> r == Cmp(lhs, rhs)
  {
    var c := if |lhs| - 1 < |rhs| then rhs[|lhs| - 1] else 0 as char;
    if YearDigit(lhs) == YearDigit(rhs) then MonthCode(lhs) < MonthCode(rhs)
    else if CharDistance(YearDigit(lhs), YearDigit(rhs)) == 1 then YearDigit(lhs) < YearDigit(rhs)
    else YearDigit(lhs) > c
  }

  /**
   * With a longer right-hand symbol the last branch reads a character that is
   * not the year digit: December 2029 is not placed before January 2030.
   */
  lemma AsWrittenMisordersLongerSymbol()
    ensures Cmp("TXFL9", "XTXFA0") && !CmpAsWritten("TXFL9", "XTXFA0")
  {
  }

  // ---------------------------------------------------------------------
  // Order properties

  /** No symbol orders before itself, and no two symbols order before each other. */
  lemma CmpIrreflexiveAsymmetric(a: Symbol, b: Symbol)
    ensures !Cmp(a, a)
    ensures Cmp(a, b) ==> !Cmp(b, a)
  {
  }

  /** Two symbols are equivalent exactly when their month codes and year digits are equal. */
  lemma CmpEquivalence(a: Symbol, b: Symbol)
    ensures Equivalent(Cmp, a, b) <==> MonthCode(a) == MonthCode(b) && YearDigit(a) == YearDigit(b)
  {
  }

  /** The symbol's year digit is d or the digit after d, modulo 10: two consecutive years. */
  predicate InWindow(s: Symbol, d: nat)
    requires d < 10
  {
    YearDigit(s) == DigitChar(d) || YearDigit(s) == DigitChar((d + 1) % 10)
  }

  /** Delivery order inside the window: the earlier year, then the earlier month code. */
  predicate DeliversBefore(a: Symbol, b: Symbol, d: nat)
    requires d < 10
  {
    var ya, yb := if YearDigit(a) == DigitChar(d) then 0 else 1, if YearDigit(b) == DigitChar(d) then 0 else 1;
    ya < yb || (ya == yb && MonthCode(a) < MonthCode(b))
  }

  /** Inside a window of two consecutive years the comparator is delivery order, across the decade wrap too. */
  lemma CmpIsDeliveryOrder(a: Symbol, b: Symbol, d: nat)
    requires d < 10 && InWindow(a, d) && InWindow(b, d)
    ensures Cmp(a, b) <==> DeliversBefore(a, b, d)
  {
  }

  /** So on symbols from two consecutive years the comparator is a strict weak order. */
  lemma CmpStrictWeakOrderInWindow(xs: seq<Symbol>, d: nat)
    requires d < 10 && forall s | s in xs :: InWindow(s, d)
    ensures StrictWeakOrderOn(Cmp, xs)
  {
    forall a, b | a in xs && b in xs
      ensures Cmp(a, b) <==> DeliversBefore(a, b, d)
    {
      CmpIsDeliveryOrder(a, b, d);
    }
  }

  /**
   * For symbols from two consecutive years the set iterates in delivery
   * order and keeps the first symbol listed for each month.
   */
  lemma FutureSetInDeliveryOrder(xs: seq<Symbol>, d: nat)
    requires d < 10 && forall s | s in xs :: InWindow(s, d)
    ensures var r := Built(xs, Cmp); forall i, j | 0 <= i < j < |r| :: DeliversBefore(r[i], r[j], d)
    ensures forall y :: y in Built(xs, Cmp) <==> FirstOfClass(Cmp, y, xs)
  {
    CmpStrictWeakOrderInWindow(xs, d);
    BuiltIsOrderedSet(xs, Cmp);
    BuiltFromInput(xs, Cmp);
    var r := Built(xs, Cmp);
    forall i, j | 0 <= i < j < |r| ensures DeliversBefore(r[i], r[j], d) {
      assert r[i] in xs && r[j] in xs;
      CmpIsDeliveryOrder(r[i], r[j], d);
    }
  }

  /** Across three years it is not: each year sorts before the next, and the third before the first. */
  lemma CmpCyclesOverThreeYears()
    ensures Cmp("TXFA1", "TXFA2") && Cmp("TXFA2", "TXFA3") && Cmp("TXFA3", "TXFA1")
  {
  }

  // ---------------------------------------------------------------------
  // The program's set

  /** The symbols the program sorts, in the order it lists them. */
  const FutureList: seq<Symbol> := ["TXFG4", "TXFL3", "TXFA3", "TXFD4", "TXFH4", "TXFG3"]

  /** The set after each insertion from FutureList. */
  const FutureSteps: seq<seq<Symbol>> := [
    [],
    ["TXFG4"],
    ["TXFL3", "TXFG4"],
    ["TXFA3", "TXFL3", "TXFG4"],
    ["TXFA3", "TXFL3", "TXFD4", "TXFG4"],
    ["TXFA3", "TXFL3", "TXFD4", "TXFG4", "TXFH4"],
    ["TXFA3", "TXFG3", "TXFL3", "TXFD4", "TXFG4", "TXFH4"]
  ]

  /** Iterating the set built from the list visits the symbols in delivery order. */
  lemma FutureListSorted()
    ensures Built(FutureList, Cmp) == ["TXFA3", "TXFG3", "TXFL3", "TXFD4", "TXFG4", "TXFH4"]
  {
    var xs, st := FutureList, FutureSteps;
    forall k | 0 <= k <= |xs| ensures Built(xs[..k], Cmp) == st[k] {
      FutureListSortedPrefix(k);
    }
    assert xs[..|xs|] == xs;
  }

  lemma {:induction false} FutureListSortedPrefix(k: nat)
    requires k <= |FutureList|
    ensures Built(FutureList[..k], Cmp) == FutureSteps[k]
  {
    if k > 0 {
      FutureListSortedPrefix(k - 1);
      BuiltSnoc(FutureList[..k - 1], FutureList[k - 1], Cmp);
      assert FutureList[..k - 1] + [FutureList[k - 1]] == FutureList[..k];
      FutureListStep(k);
    }
  }

  lemma FutureListStep(k: nat)
    requires 0 < k <= |FutureList|
    ensures Inserted(FutureSteps[k - 1], FutureList[k - 1], Cmp) == FutureSteps[k]
  {
    if k == 1 {
      FutureListStep1();
    } else if k == 2 {
      FutureListStep2();
    } else if k == 3 {
      FutureListStep3();
    } else if k == 4 {
      FutureListStep4();
    } else if k == 5 {
      FutureListStep5();
    } else {
      FutureListStep6();
    }
  }

  lemma FutureListStep1()
    ensures Inserted<Symbol>([], "TXFG4", Cmp) == ["TXFG4"]
  {
  }

  lemma FutureListStep2()
    ensures Inserted<Symbol>(["TXFG4"], "TXFL3", Cmp) == ["TXFL3", "TXFG4"]
  {
  }

  lemma FutureListStep3()
    ensures Inserted<Symbol>(["TXFL3", "TXFG4"], "TXFA3", Cmp) == ["TXFA3", "TXFL3", "TXFG4"]
  {
  }

  lemma FutureListStep4()
    ensures Inserted<Symbol>(["TXFA3", "TXFL3", "TXFG4"], "TXFD4", Cmp) == ["TXFA3", "TXFL3", "TXFD4", "TXFG4"]
  {
  }

  lemma FutureListStep5()
    ensures Inserted<Symbol>(["TXFA3", "TXFL3", "TXFD4", "TXFG4"], "TXFH4", Cmp) == ["TXFA3", "TXFL3", "TXFD4", "TXFG4", "TXFH4"]
  {
  }

  lemma FutureListStep6()
    ensures Inserted<Symbol>(["TXFA3", "TXFL3", "TXFD4", "TXFG4", "TXFH4"], "TXFG3", Cmp) == ["TXFA3", "TXFG3", "TXFL3", "TXFD4", "TXFG4", "TXFH4"]
  {
  }

  /** The list the program leaves commented out, across the decade wrap. */
  const DecadeWrapList: seq<Symbol> := ["TXFG0", "TXFD0", "TXFA0", "TXFL9", "TXFJ9", "TXFK9", "TXFH0"]

  /** The set after each insertion from DecadeWrapList. */
  const DecadeWrapSteps: seq<seq<Symbol>> := [
    [],
    ["TXFG0"],
    ["TXFD0", "TXFG0"],
    ["TXFA0", "TXFD0", "TXFG0"],
    ["TXFL9", "TXFA0", "TXFD0", "TXFG0"],
    ["TXFJ9", "TXFL9", "TXFA0", "TXFD0", "TXFG0"],
    ["TXFJ9", "TXFK9", "TXFL9", "TXFA0", "TXFD0", "TXFG0"],
    ["TXFJ9", "TXFK9", "TXFL9", "TXFA0", "TXFD0", "TXFG0", "TXFH0"]
  ]

  /** It sorts the 2029 contracts before the 2030 ones. */
  lemma DecadeWrapListSorted()
    ensures Built(DecadeWrapList, Cmp) == ["TXFJ9", "TXFK9", "TXFL9", "TXFA0", "TXFD0", "TXFG0", "TXFH0"]
  {
    var xs, st := DecadeWrapList, DecadeWrapSteps;
    forall k | 0 <= k <= |xs| ensures Built(xs[..k], Cmp) == st[k] {
      DecadeWrapListSortedPrefix(k);
    }
    assert xs[..|xs|] == xs;
  }

  lemma {:induction false} DecadeWrapListSortedPrefix(k: nat)
    requires k <= |DecadeWrapList|
    ensures Built(DecadeWrapList[..k], Cmp) == DecadeWrapSteps[k]
  {
    if k > 0 {
      DecadeWrapListSortedPrefix(k - 1);
      BuiltSnoc(DecadeWrapList[..k - 1], DecadeWrapList[k - 1], Cmp);
      assert DecadeWrapList[..k - 1] + [DecadeWrapList[k - 1]] == DecadeWrapList[..k];
      DecadeWrapStep(k);
    }
  }

  lemma DecadeWrapStep(k: nat)
    requires 0 < k <= |DecadeWrapList|
    ensures Inserted(DecadeWrapSteps[k - 1], DecadeWrapList[k - 1], Cmp) == DecadeWrapSteps[k]
  {
    if k == 1 {
      DecadeWrapStep1();
    } else if k == 2 {
      DecadeWrapStep2();
    } else if k == 3 {
      DecadeWrapStep3();
    } else if k == 4 {
      DecadeWrapStep4();
    } else if k == 5 {
      DecadeWrapStep5();
    } else if k == 6 {
      DecadeWrapStep6();
    } else {
      DecadeWrapStep7();
    }
  }

  lemma DecadeWrapStep1()
    ensures Inserted<Symbol>([], "TXFG0", Cmp) == ["TXFG0"]
  {
  }

  lemma DecadeWrapStep2()
    ensures Inserted<Symbol>(["TXFG0"], "TXFD0", Cmp) == ["TXFD0", "TXFG0"]
  {
  }

  lemma DecadeWrapStep3()
    ensures Inserted<Symbol>(["TXFD0", "TXFG0"], "TXFA0", Cmp) == ["TXFA0", "TXFD0", "TXFG0"]
  {
  }

  lemma DecadeWrapStep4()
    ensures Inserted<Symbol>(["TXFA0", "TXFD0", "TXFG0"], "TXFL9", Cmp) == ["TXFL9", "TXFA0", "TXFD0", "TXFG0"]
  {
  }

  lemma DecadeWrapStep5()
    ensures Inserted<Symbol>(["TXFL9", "TXFA0", "TXFD0", "TXFG0"], "TXFJ9", Cmp) == ["TXFJ9", "TXFL9", "TXFA0", "TXFD0", "TXFG0"]
  {
  }

  lemma DecadeWrapStep6()
    ensures Inserted<Symbol>(["TXFJ9", "TXFL9", "TXFA0", "TXFD0", "TXFG0"], "TXFK9", Cmp) == ["TXFJ9", "TXFK9", "TXFL9", "TXFA0", "TXFD0", "TXFG0"]
  {
  }

  lemma DecadeWrapStep7()
    ensures Inserted<Symbol>(["TXFJ9", "TXFK9", "TXFL9", "TXFA0", "TXFD0", "TXFG0"], "TXFH0", Cmp) == ["TXFJ9", "TXFK9", "TXFL9", "TXFA0", "TXFD0", "TXFG0", "TXFH0"]
  {
  }
}
