/**
 * The ExecType field (tag 150) of FIX Protocol 5.0: the enumeration of
 * execution report kinds and the table from one-character wire codes to
 * those kinds.
 */
module FixExecType {
  import opened Wrappers

  /** The enumeration, in declaration order. */
  datatype ExecType =
    | New
    | DoneForDay
    | Canceled
    | Replaced
    | PendingCancel
    | Stopped
    | Rejected
    | Suspended
    | PendingNew
    | Calculated
    | Expired
    | Restated
    | PendingReplace
    | Trade
    | TradeCorrect
    | TradeCancel
    | OrderStatus
    | TradeInAClearingHold
    | TradeHasBeenReleasedToClearing
    | TriggeredOrActivatedBySystem

  /** The code-to-constant table, entry by entry as it is written. */
  const Table: seq<(string, ExecType)> := [
    ("0", New),
    ("3", DoneForDay),
    ("4", Canceled),
    ("5", Replaced),
    ("6", PendingCancel),
    ("7", Stopped),
    ("8", Rejected),
    ("9", Suspended),
    ("A", PendingNew),
    ("B", Calculated),
    ("C", Expired),
    ("D", Restated),
    ("E", PendingReplace),
    ("F", Trade),
    ("G", TradeCorrect),
    ("H", TradeCancel),
    ("I", OrderStatus),
    ("J", TradeInAClearingHold),
    ("K", TradeHasBeenReleasedToClearing),
    ("L", TriggeredOrActivatedBySystem)
  ]

  /** The declaration ordinal of a constant (the C++ enumerator's integer value). */
  function Ordinal(e: ExecType): (k: nat)
    ensures k < 20
  {
    match e
    case New => 0
    case DoneForDay => 1
    case Canceled => 2
    case Replaced => 3
    case PendingCancel => 4
    case Stopped => 5
    case Rejected => 6
    case Suspended => 7
    case PendingNew => 8
    case Calculated => 9
    case Expired => 10
    case Restated => 11
    case PendingReplace => 12
    case Trade => 13
    case TradeCorrect => 14
    case TradeCancel => 15
    case OrderStatus => 16
    case TradeInAClearingHold => 17
    case TradeHasBeenReleasedToClearing => 18
    case TriggeredOrActivatedBySystem => 19
  }

  /** The characters that are keys of the table: '0', '3' to '9' and 'A' to 'L'. */
  predicate IsKeyChar(c: char)
  {
    c == '0' || ('3' <= c <= '9') || ('A' <= c <= 'L')
  }

  /**
   * Looking a code up in the table: the constant of the entry whose key is
   * `code`, or None when no entry has that key (every code that is not a
   * single key character, "1" and "2" among them).
   */
  function Lookup(code: string): (r: Option<ExecType>)
    ensures r.Some? <==> |code| == 1 && IsKeyChar(code[0])
  {
    if |code| != 1 then None
    else
      match code[0]
      case '0' => Some(New)
      case '3' => Some(DoneForDay)
      case '4' => Some(Canceled)
      case '5' => Some(Replaced)
      case '6' => Some(PendingCancel)
      case '7' => Some(Stopped)
      case '8' => Some(Rejected)
      case '9' => Some(Suspended)
      case 'A' => Some(PendingNew)
      case 'B' => Some(Calculated)
      case 'C' => Some(Expired)
      case 'D' => Some(Restated)
      case 'E' => Some(PendingReplace)
      case 'F' => Some(Trade)
      case 'G' => Some(TradeCorrect)
      case 'H' => Some(TradeCancel)
      case 'I' => Some(OrderStatus)
      case 'J' => Some(TradeInAClearingHold)
      case 'K' => Some(TradeHasBeenReleasedToClearing)
      case 'L' => Some(TriggeredOrActivatedBySystem)
      case _ => None
  }

  /** The wire code of a constant: the inverse of Lookup. */
  function Code(e: ExecType): (c: string)
    ensures |c| == 1 && IsKeyChar(c[0])
    ensures Lookup(c) == Some(e)
  {
    Table[Ordinal(e)].0
  }

  // ---------------------------------------------------------------------
  // Table facts

  /** Distinct constants have distinct ordinals, so the 20 constants take the ordinals 0 to 19. */
  lemma OrdinalInjective(e1: ExecType, e2: ExecType)
    ensures Ordinal(e1) == Ordinal(e2) ==> e1 == e2
  {
  }

  /** The table has 20 entries, and looking up the key of each entry gives that entry's constant. */
  lemma TableMatchesLookup()
    ensures |Table| == 20
    ensures forall k | 0 <= k < |Table| :: Lookup(Table[k].0) == Some(Table[k].1)
  {
  }

  /** The k-th entry holds the k-th declared constant: table order and declaration order coincide. */
  lemma TableInDeclarationOrder()
    ensures forall k | 0 <= k < |Table| :: Ordinal(Table[k].1) == k
  {
  }

  /** No two entries share a key, and no two share a constant. */
  lemma TableKeysDistinct()
    ensures forall i, j | 0 <= i < |Table| && 0 <= j < |Table| && Table[i].0 == Table[j].0 :: i == j
    ensures forall i, j | 0 <= i < |Table| && 0 <= j < |Table| && Table[i].1 == Table[j].1 :: i == j
  {
    TableMatchesLookup();
    TableInDeclarationOrder();
    forall i, j | 0 <= i < |Table| && 0 <= j < |Table| && Table[i].0 == Table[j].0
      ensures i == j
    {
      assert Table[i].1 == Table[j].1;
    }
  }

  /** Lookup finds a constant exactly for the keys of the table, and finds that entry's constant. */
  lemma LookupIsTableSearch(code: string)
    ensures Lookup(code).Some? <==> exists k | 0 <= k < |Table| :: Table[k].0 == code
    ensures forall k | 0 <= k < |Table| && Table[k].0 == code :: Lookup(code) == Some(Table[k].1)
  {
    TableMatchesLookup();
    TableInDeclarationOrder();
    if Lookup(code).Some? {
      var e := Lookup(code).value;
      LookupInjective(code, Code(e));
      assert Table[Ordinal(e)].0 == code;
    }
  }

  /** Two codes that look up to the same constant are the same code. */
  lemma LookupInjective(c1: string, c2: string)
    requires Lookup(c1).Some? && Lookup(c1) == Lookup(c2)
    ensures c1 == c2
  {
    assert c1 == [c1[0]] && c2 == [c2[0]];
  }

  /** Code and Lookup are inverse: the table is a bijection between its 20 keys and the 20 constants. */
  lemma CodeLookupInverse(code: string, e: ExecType)
    ensures Lookup(code) == Some(e) <==> code == Code(e)
  {
    if Lookup(code) == Some(e) {
      LookupInjective(code, Code(e));
    }
  }

  /** Codes "1" and "2" are not in the table. */
  lemma UnassignedCodes()
    ensures Lookup("1") == None && Lookup("2") == None
    ensures Lookup("") == None && Lookup("00") == None
  {
  }
}
