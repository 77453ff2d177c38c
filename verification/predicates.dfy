/**
  The query conditions the filter engine hands to the JPA Criteria API,
  as a small predicate AST, and their evaluation on a record under SQL's
  three-valued logic. A record is selected by a condition exactly when the
  condition evaluates to TRUE.
 */
module Predicates {
  import opened Wrappers
  import opened Values
  import opened Like

  /** SQL truth values. */
  datatype Truth = True | False | Unknown

  function FromBool(b: bool): Truth
  {
    if b then True else False
  }

  /** SQL AND: FALSE dominates, then UNKNOWN. */
  function And3(a: Truth, b: Truth): (r: Truth)
    ensures r == True <==> a == True && b == True
    ensures r == False <==> a == False || b == False
  {
    if a == False || b == False then False
    else if a == True && b == True then True
    else Unknown
  }

  /** SQL OR: TRUE dominates, then UNKNOWN. */
  function Or3(a: Truth, b: Truth): (r: Truth)
    ensures r == True <==> a == True || b == True
    ensures r == False <==> a == False && b == False
  {
    if a == True || b == True then True
    else if a == False && b == False then False
    else Unknown
  }

  /** SQL NOT: swaps TRUE and FALSE, keeps UNKNOWN. */
  function Not3(a: Truth): (r: Truth)
    ensures r == True <==> a == False
    ensures r == False <==> a == True
  {
    match a
    case True => False
    case False => True
    case Unknown => Unknown
  }

  lemma And3Associative(a: Truth, b: Truth, c: Truth)
    ensures And3(And3(a, b), c) == And3(a, And3(b, c))
  {
  }

  // ---------------------------------------------------------------- ordering

  datatype Order = Less | Same | Greater

  /** The four ordered comparisons of the Criteria API. */
  datatype Relation = Gt | Lt | Ge | Le

  predicate Holds(rel: Relation, o: Order)
  {
    match rel
    case Gt => o == Greater
    case Lt => o == Less
    case Ge => o != Less
    case Le => o != Greater
  }

  function CompareInt(a: int, b: int): (o: Order)
    ensures o == Less <==> a < b
    ensures o == Greater <==> a > b
  {
    if a < b then Less else if a > b then Greater else Same
  }

  /** Lexicographic comparison by character code. */
  function CompareText(a: string, b: string): (o: Order)
    ensures o == Same <==> a == b
    decreases |a|
  {
    if |a| == 0 && |b| == 0 then Same
    else if |a| == 0 then Less
    else if |b| == 0 then Greater
    else if a[0] < b[0] then Less
    else if a[0] > b[0] then Greater
    else
      var o := CompareText(a[1..], b[1..]);
      assert a == [a[0]] + a[1..] && b == [b[0]] + b[1..];
      o
  }

  /** Swapping the operands of a text comparison reverses its outcome. */
  lemma {:induction false} CompareTextAntisymmetric(a: string, b: string)
    ensures CompareText(a, b) == Less <==> CompareText(b, a) == Greater
    ensures CompareText(a, b) == Greater <==> CompareText(b, a) == Less
    decreases |a|
  {
    if |a| > 0 && |b| > 0 && a[0] == b[0] {
      CompareTextAntisymmetric(a[1..], b[1..]);
    }
  }

  /** A proper prefix sorts before the longer string. */
  lemma {:induction false} CompareTextPrefix(a: string, b: string)
    requires |a| < |b| && b[..|a|] == a
    ensures CompareText(a, b) == Less
    decreases |a|
  {
    if |a| > 0 {
      assert b[1..][..|a| - 1] == a[1..];
      CompareTextPrefix(a[1..], b[1..]);
    }
  }

  /**
    How a column value compares with an operand, or None when SQL cannot
    compare them. An integer column compared with text casts the text to an
    integer; a text that is not a decimal integer makes the comparison unknown.
   */
  function CompareValues(x: Value, y: Value): Option<Order>
  {
    match (x, y)
    case (StrV(a), StrV(b)) => Some(CompareText(a, b))
    case (IntV(a), IntV(b)) => Some(CompareInt(a, b))
    case (IntV(a), StrV(t)) =>
      (match ParseInt(t)
       case Success(b) => Some(CompareInt(a, b))
       case Failure(_) => None)
    case _ => None
  }

  /** SQL `=`: unknown when either side is null. */
  function Eq3(x: Value, y: Value): (r: Truth)
    ensures r == Unknown <==> x == Null || y == Null
    ensures r == True <==> x != Null && x == y
  {
    if x == Null || y == Null then Unknown else FromBool(x == y)
  }

  /** SQL `x IN (items)`: the OR of `x = item` over the list; FALSE for an empty list. */
  function In3(x: Value, items: seq<Value>): Truth
    decreases |items|
  {
    if |items| == 0 then False else Or3(Eq3(x, items[0]), In3(x, items[1..]))
  }

  /** With no null in sight, `IN` is plain list membership. */
  lemma {:induction false} In3IsMembership(x: Value, items: seq<Value>)
    requires x != Null
    requires forall i :: 0 <= i < |items| ==> items[i] != Null
    ensures In3(x, items) == FromBool(x in items)
    decreases |items|
  {
    if |items| > 0 {
      In3IsMembership(x, items[1..]);
      assert items == [items[0]] + items[1..];
    }
  }

  /** Whatever nulls are involved, `IN` is TRUE iff the value is non-null and in the list. */
  lemma {:induction false} In3TrueIsMembership(x: Value, items: seq<Value>)
    ensures In3(x, items) == True <==> x != Null && x in items
    decreases |items|
  {
    if |items| > 0 {
      In3TrueIsMembership(x, items[1..]);
      assert items == [items[0]] + items[1..];
    }
  }

  // ---------------------------------------------------------------- the AST

  /** The test an atomic condition applies to one attribute. */
  datatype Test =
    | Ordered(rel: Relation, operand: Value)   // greaterThan, lessThan, ...
    | EqualTo(operand: Value)                  // equal
    | NotEqualTo(operand: Value)               // notEqual
    | LowerLike(pattern: string)               // like(lower(attribute), pattern)
    | InItems(items: seq<Value>)               // in(attribute).value(...)
    | NegatedIn(items: seq<Value>)             // not(attribute).in(...)

  /** One atomic condition: a test on the attribute named `key`. */
  datatype Atomic = Atomic(key: string, test: Test)

  /**
    A condition: one atomic test, the n-ary conjunction `builder.and(...)`
    of atomic tests, or the conjunction of two conditions.
   */
  datatype Pred =
    | Leaf(atom: Atomic)
    | AllOf(atoms: seq<Atomic>)
    | Both(left: Pred, right: Pred)

  function EvalTest(t: Test, x: Value): Truth
  {
    match t
    case Ordered(rel, operand) =>
      (match CompareValues(x, operand)
       case Some(o) => FromBool(Holds(rel, o))
       case None => Unknown)
    case EqualTo(v) => Eq3(x, v)
    case NotEqualTo(v) => Not3(Eq3(x, v))
    case LowerLike(p) => if x.StrV? then FromBool(LikeMatch(Lower(x.s), p)) else Unknown
    case InItems(items) => In3(x, items)
    case NegatedIn(items) =>
      (match x
       case BoolV(b) => In3(BoolV(!b), items)
       case Null => In3(Null, items)
       case _ => Unknown)
  }

  function EvalAtomic(a: Atomic, rec: Record): Truth
  {
    EvalTest(a.test, Field(rec, a.key))
  }

  /** The n-ary SQL AND; TRUE for no operands. */
  function EvalAll(atoms: seq<Atomic>, rec: Record): Truth
    decreases |atoms|
  {
    if |atoms| == 0 then True else And3(EvalAtomic(atoms[0], rec), EvalAll(atoms[1..], rec))
  }

  function Eval(p: Pred, rec: Record): Truth
    decreases p
  {
    match p
    case Leaf(a) => EvalAtomic(a, rec)
    case AllOf(atoms) => EvalAll(atoms, rec)
    case Both(l, r) => And3(Eval(l, rec), Eval(r, rec))
  }

  /** The record is selected by the condition. */
  predicate Matches(p: Pred, rec: Record)
  {
    Eval(p, rec) == True
  }

  predicate MatchesAtomic(a: Atomic, rec: Record)
  {
    EvalAtomic(a, rec) == True
  }

  /** The n-ary conjunction selects a record iff every one of its tests does. */
  lemma {:induction false} AllOfMatchesEvery(atoms: seq<Atomic>, rec: Record)
    ensures Matches(AllOf(atoms), rec) <==> forall i :: 0 <= i < |atoms| ==> MatchesAtomic(atoms[i], rec)
    decreases |atoms|
  {
    if |atoms| > 0 {
      AllOfMatchesEvery(atoms[1..], rec);
      assert forall i :: 1 <= i < |atoms| ==> atoms[i] == atoms[1..][i - 1];
    }
  }

  /** The empty conjunction selects every record. */
  lemma EmptyConjunctionMatchesAll(rec: Record)
    ensures Matches(AllOf([]), rec)
  {
  }
}
