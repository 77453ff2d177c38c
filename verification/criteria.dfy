/**
  The generic criterion compiler: `SearchOperation`, `SearchCriteria` and
  `MovieSpecification`, which turns an ordered list of (key, value,
  operation) criteria into the conjunction of one atomic condition each.
 */
module Criteria {
  import opened Wrappers
  import opened Values
  import opened Like
  import opened Predicates

  /** The eleven operations of `SearchOperation`, in declaration order. */
  datatype SearchOperation =
    | GreaterThan
    | LessThan
    | GreaterThanEqual
    | LessThanEqual
    | NotEqual
    | Equal
    | Match
    | MatchStart
    | MatchEnd
    | In
    | NotIn

  /** One `SearchCriteria`: attribute name, untyped value and operation. */
  datatype Criterion = Criterion(key: string, value: Value, operation: SearchOperation)

  /** A `MovieSpecification`: the criteria added so far, in order. */
  datatype MovieSpecification = MovieSpecification(list: seq<Criterion>)

  /** `new MovieSpecification()`: no criteria yet. */
  function NewSpecification(): (spec: MovieSpecification)
    ensures |spec.list| == 0
  {
    MovieSpecification([])
  }

  /** `add`: the criterion goes at the end; earlier criteria keep their order. */
  function Add(spec: MovieSpecification, c: Criterion): (r: MovieSpecification)
    ensures |r.list| == |spec.list| + 1
    ensures r.list[..|spec.list|] == spec.list
    ensures r.list[|spec.list|] == c
  {
    MovieSpecification(spec.list + [c])
  }

  /** The operations that call `value.toString()` and so fail on a null value. */
  predicate UsesText(op: SearchOperation)
  {
    op in {GreaterThan, LessThan, GreaterThanEqual, LessThanEqual, Match, MatchStart, MatchEnd}
  }

  /** The values an `IN` list holds: the elements of a collection, or the value itself. */
  function Operands(v: Value): seq<Value>
  {
    if v.ListV? then v.items else [v]
  }

  /** The atomic condition built from `value.toString()`, or the exception it raises. */
  function WithText(key: string, v: Value, build: string -> Test): (r: Result<Atomic, Error>)
    ensures r.Failure? <==> v == Null
  {
    match ToText(v)
    case Failure(e) => Failure(e)
    case Success(t) => Success(Atomic(key, build(t)))
  }

  /**
    One iteration of `toPredicate`'s loop. `root.get(key)` is evaluated
    first, so an unknown attribute is reported before a null value.
   */
  function CompileOne(attrs: set<string>, c: Criterion): (r: Result<Atomic, Error>)
    ensures c.key !in attrs ==> r == Failure(UnknownAttribute(c.key))
    ensures c.key in attrs ==> (r.Failure? <==> c.value == Null && UsesText(c.operation))
    ensures c.key in attrs && r.Failure? ==> r.error == NullPointer
    ensures r.Success? ==> r.value.key == c.key
  {
    if c.key !in attrs then Failure(UnknownAttribute(c.key))
    else
      match c.operation
      case GreaterThan => WithText(c.key, c.value, t => Ordered(Gt, StrV(t)))
      case LessThan => WithText(c.key, c.value, t => Ordered(Lt, StrV(t)))
      case GreaterThanEqual => WithText(c.key, c.value, t => Ordered(Ge, StrV(t)))
      case LessThanEqual => WithText(c.key, c.value, t => Ordered(Le, StrV(t)))
      case NotEqual => Success(Atomic(c.key, NotEqualTo(c.value)))
      case Equal => Success(Atomic(c.key, EqualTo(c.value)))
      case Match => WithText(c.key, c.value, t => LowerLike("%" + Lower(t) + "%"))
      case MatchEnd => WithText(c.key, c.value, t => LowerLike(Lower(t) + "%"))
      case MatchStart => WithText(c.key, c.value, t => LowerLike("%" + Lower(t)))
      case In => Success(Atomic(c.key, InItems(Operands(c.value))))
      case NotIn => Success(Atomic(c.key, NegatedIn(Operands(c.value))))
  }

  /**
    `toPredicate`: one atomic condition per criterion, in list order, joined
    by `builder.and`; the first criterion that cannot be compiled raises its
    exception and nothing is returned.
   */
  method ToPredicate(spec: MovieSpecification, attrs: set<string>) returns (r: Result<Pred, Error>)
    ensures r.Success? <==> forall i :: 0 <= i < |spec.list| ==> CompileOne(attrs, spec.list[i]).Success?
    ensures r.Success? ==>
      && r.value.AllOf?
      && |r.value.atoms| == |spec.list|
      && forall i :: 0 <= i < |spec.list| ==> CompileOne(attrs, spec.list[i]) == Success(r.value.atoms[i])
    ensures r.Failure? ==>
      exists i :: 0 <= i < |spec.list|
        && CompileOne(attrs, spec.list[i]) == Failure(r.error)
        && forall j :: 0 <= j < i ==> CompileOne(attrs, spec.list[j]).Success?
  {
    var atoms: seq<Atomic> := [];
    var k := 0;
    while k < |spec.list|
      invariant 0 <= k <= |spec.list|
      invariant |atoms| == k
      invariant forall i :: 0 <= i < k ==> CompileOne(attrs, spec.list[i]) == Success(atoms[i])
    {
      var c := CompileOne(attrs, spec.list[k]);
      if c.Failure? {
        return Failure(c.error);
      }
      atoms := atoms + [c.value];
      k := k + 1;
    }
    return Success(AllOf(atoms));
  }

  /** A specification with no criteria compiles to a condition every record meets. */
  method EmptySpecificationMatchesAll(attrs: set<string>, rec: Record) returns (r: Result<Pred, Error>)
    ensures r.Success? && Matches(r.value, rec)
  {
    r := ToPredicate(NewSpecification(), attrs);
    EmptyConjunctionMatchesAll(rec);
  }

  // ---------------------------------------------------------------- meaning of each operation

  /** Lower-casing the searched-for text keeps it free of wildcards. */
  lemma LowerNoWildcards(t: string)
    requires NoWildcards(t)
    ensures NoWildcards(Lower(t))
  {
  }

  /** The criterion `key op value` applied to a record. */
  predicate CriterionHolds(attrs: set<string>, key: string, v: Value, op: SearchOperation, rec: Record)
  {
    var r := CompileOne(attrs, Criterion(key, v, op));
    r.Success? && MatchesAtomic(r.value, rec)
  }

  /** MATCH: the lower-cased attribute contains the lower-cased value anywhere. */
  lemma MatchIsContainment(attrs: set<string>, key: string, v: Value, rec: Record)
    requires key in attrs && v != Null && NoWildcards(Show(v))
    ensures CriterionHolds(attrs, key, v, Match, rec)
        <==> Field(rec, key).StrV? && IsSubstring(Lower(Show(v)), Lower(Field(rec, key).s))
  {
    LowerNoWildcards(Show(v));
    if Field(rec, key).StrV? {
      ContainsPattern(Lower(Field(rec, key).s), Lower(Show(v)));
    }
  }

  /** MATCH_END builds `v%`: the lower-cased attribute starts with the value. */
  lemma MatchEndIsPrefix(attrs: set<string>, key: string, v: Value, rec: Record)
    requires key in attrs && v != Null && NoWildcards(Show(v))
    ensures CriterionHolds(attrs, key, v, MatchEnd, rec)
        <==> Field(rec, key).StrV? && IsPrefix(Lower(Show(v)), Lower(Field(rec, key).s))
  {
    LowerNoWildcards(Show(v));
    if Field(rec, key).StrV? {
      PrefixPattern(Lower(Field(rec, key).s), Lower(Show(v)));
    }
  }

  /** MATCH_START builds `%v`: the lower-cased attribute ends with the value. */
  lemma MatchStartIsSuffix(attrs: set<string>, key: string, v: Value, rec: Record)
    requires key in attrs && v != Null && NoWildcards(Show(v))
    ensures CriterionHolds(attrs, key, v, MatchStart, rec)
        <==> Field(rec, key).StrV? && IsSuffix(Lower(Show(v)), Lower(Field(rec, key).s))
  {
    LowerNoWildcards(Show(v));
    if Field(rec, key).StrV? {
      SuffixPattern(Lower(Field(rec, key).s), Lower(Show(v)));
    }
  }

  /** The case of the searched-for text does not matter: "BLACK" finds "Black Panther". */
  lemma MatchIgnoresCase()
    ensures CriterionHolds({"title"}, "title", StrV("BLACK"), Match, map["title" := StrV("Black Panther")])
  {
    var title := Lower("Black Panther");
    assert Lower("BLACK") == "black";
    assert title[..5] == "black";
    assert IsPrefix("black", title[0..]);
    MatchIsContainment({"title"}, "title", StrV("BLACK"), map["title" := StrV("Black Panther")]);
  }

  /** EQUAL compares with the raw value; NOT_EQUAL is its SQL negation. */
  lemma EqualAndNotEqualAreComplementary(attrs: set<string>, key: string, v: Value, rec: Record)
    requires key in attrs
    ensures CriterionHolds(attrs, key, v, Equal, rec) <==> Field(rec, key) != Null && Field(rec, key) == v
    ensures Field(rec, key) != Null && v != Null ==>
      (CriterionHolds(attrs, key, v, NotEqual, rec) <==> !CriterionHolds(attrs, key, v, Equal, rec))
  {
  }

  /**
    The ordered comparisons are made against `value.toString()`: GREATER_THAN
    is the SQL negation of LESS_THAN_EQUAL, LESS_THAN of GREATER_THAN_EQUAL,
    and each strict comparison implies its non-strict one.
   */
  lemma OrderedComparisonsAgree(attrs: set<string>, key: string, v: Value, rec: Record)
    requires key in attrs && v != Null
    ensures var gt := CompileOne(attrs, Criterion(key, v, GreaterThan)).value;
            var le := CompileOne(attrs, Criterion(key, v, LessThanEqual)).value;
            EvalAtomic(gt, rec) == Not3(EvalAtomic(le, rec))
    ensures var lt := CompileOne(attrs, Criterion(key, v, LessThan)).value;
            var ge := CompileOne(attrs, Criterion(key, v, GreaterThanEqual)).value;
            EvalAtomic(lt, rec) == Not3(EvalAtomic(ge, rec))
    ensures CriterionHolds(attrs, key, v, GreaterThan, rec) ==> CriterionHolds(attrs, key, v, GreaterThanEqual, rec)
    ensures CriterionHolds(attrs, key, v, LessThan, rec) ==> CriterionHolds(attrs, key, v, LessThanEqual, rec)
  {
  }

  /** On an integer attribute the text of an integer value compares numerically. */
  lemma IntegerComparisonThroughText(attrs: set<string>, key: string, a: int, b: int, rec: Record)
    requires key in attrs && Field(rec, key) == IntV(a) && IsInt32(b)
    ensures CriterionHolds(attrs, key, IntV(b), GreaterThan, rec) <==> a > b
    ensures CriterionHolds(attrs, key, IntV(b), LessThan, rec) <==> a < b
    ensures CriterionHolds(attrs, key, IntV(b), GreaterThanEqual, rec) <==> a >= b
    ensures CriterionHolds(attrs, key, IntV(b), LessThanEqual, rec) <==> a <= b
  {
    ParseIntRoundTrip(b);
  }

  /** On a text attribute, GREATER_THAN_EQUAL and LESS_THAN_EQUAL together mean equality. */
  lemma TextComparisonBothWays(attrs: set<string>, key: string, a: string, b: string, rec: Record)
    requires key in attrs && Field(rec, key) == StrV(a)
    ensures (CriterionHolds(attrs, key, StrV(b), GreaterThanEqual, rec)
             && CriterionHolds(attrs, key, StrV(b), LessThanEqual, rec)) <==> a == b
  {
  }

  /**
    On a text attribute the four ordered comparisons follow the lexicographic
    order of the attribute against `value.toString()`.
   */
  lemma TextComparison(attrs: set<string>, key: string, a: string, v: Value, rec: Record)
    requires key in attrs && Field(rec, key) == StrV(a) && v != Null
    ensures CriterionHolds(attrs, key, v, GreaterThan, rec) <==> CompareText(a, Show(v)) == Greater
    ensures CriterionHolds(attrs, key, v, LessThan, rec) <==> CompareText(a, Show(v)) == Less
    ensures CriterionHolds(attrs, key, v, GreaterThanEqual, rec) <==> CompareText(a, Show(v)) != Less
    ensures CriterionHolds(attrs, key, v, LessThanEqual, rec) <==> CompareText(a, Show(v)) != Greater
  {
  }

  /**
    The comparison is textual even for an integer value: the title "10" is
    LESS_THAN the value 7, because "10" sorts before "7".
   */
  lemma TextComparisonIsNotNumeric()
    ensures CriterionHolds({"title"}, "title", IntV(7), LessThan, map["title" := StrV("10")])
    ensures !CriterionHolds({"title"}, "title", IntV(7), GreaterThan, map["title" := StrV("10")])
  {
    assert Show(IntV(7)) == "7" by {
      assert NatToText(7) == [DigitChar(7)];
    }
    assert CompareText("10", "7") == Less;
    TextComparison({"title"}, "title", "10", IntV(7), map["title" := StrV("10")]);
  }

  /**
    IN: the attribute is non-null and one of the supplied values. A null
    attribute never satisfies IN, even when the values include null.
   */
  lemma InIsMembership(attrs: set<string>, key: string, v: Value, rec: Record)
    requires key in attrs
    ensures CriterionHolds(attrs, key, v, In, rec) <==> Field(rec, key) != Null && Field(rec, key) in Operands(v)
  {
    In3TrueIsMembership(Field(rec, key), Operands(v));
  }

  /**
    NOT_IN builds `not(attribute).in(value)`: it negates the attribute and
    then tests membership, so only a boolean attribute can satisfy it.
   */
  lemma NotInNeedsBooleanAttribute(attrs: set<string>, key: string, v: Value, rec: Record)
    requires key in attrs && !Field(rec, key).BoolV?
    ensures !CriterionHolds(attrs, key, v, NotIn, rec)
  {
    In3TrueIsMembership(Null, Operands(v));
  }

  /** NOT_IN on a boolean attribute `b`: the negation `!b` is one of the supplied values. */
  lemma NotInNegatesBoolean(attrs: set<string>, key: string, v: Value, b: bool, rec: Record)
    requires key in attrs && Field(rec, key) == BoolV(b)
    ensures CriterionHolds(attrs, key, v, NotIn, rec) <==> BoolV(!b) in Operands(v)
  {
    In3TrueIsMembership(BoolV(!b), Operands(v));
  }

  /**
    NOT_IN is not the complement of IN: for a boolean attribute holding true
    and the values [true, false], both hold.
   */
  lemma NotInIsNotComplementOfIn()
    ensures var rec := map["active" := BoolV(true)];
            var v := ListV([BoolV(true), BoolV(false)]);
            CriterionHolds({"active"}, "active", v, In, rec)
            && CriterionHolds({"active"}, "active", v, NotIn, rec)
  {
    var items := [BoolV(true), BoolV(false)];
    assert items[1..] == [BoolV(false)];
    assert In3(BoolV(false), items) == True;
  }
}
