/**
  `CustomerSpecifications`: hand-written named conditions on the `Customer`
  entity (attributes `name` and `age`).
 */
module CustomerSpecifications {
  import opened Values
  import opened Predicates

  /** The record of `new Customer(name, age)`. */
  function Customer(name: string, age: int): (rec: Record)
    ensures Field(rec, "name") == StrV(name) && Field(rec, "age") == IntV(age)
  {
    map["name" := StrV(name), "age" := IntV(age)]
  }

  /** `customerHasName(name)`: the `name` attribute equals `name`. */
  function CustomerHasName(name: string): (p: Pred)
    ensures forall rec :: Matches(p, rec) <==> Field(rec, "name") == StrV(name)
  {
    Leaf(Atomic("name", EqualTo(StrV(name))))
  }

  /** `customerHasNotAge(age)`: the `age` attribute is an integer below `age`. */
  function CustomerHasNotAge(age: int): (p: Pred)
    ensures forall rec :: Matches(p, rec) <==> Field(rec, "age").IntV? && Field(rec, "age").n < age
  {
    Leaf(Atomic("age", Ordered(Lt, IntV(age))))
  }
}

/**
  `SpecificationChain.add` and the `stream().reduce(SpecificationChain::add)
  .orElseThrow()` fold over a list of conditions.
 */
module SpecificationChain {
  import opened Wrappers
  import opened Values
  import opened Predicates

  /** `add(a, b)` is `a.and(b)`: selects exactly the records both select. */
  function Add(a: Pred, b: Pred): (r: Pred)
    ensures forall rec :: Matches(r, rec) <==> Matches(a, rec) && Matches(b, rec)
    ensures forall rec :: Eval(r, rec) == And3(Eval(a, rec), Eval(b, rec))
  {
    Both(a, b)
  }

  /** The sequential stream reduction: a left fold seeded with the accumulator. */
  function FoldAdd(acc: Pred, rest: seq<Pred>): Pred
    decreases |rest|
  {
    if |rest| == 0 then acc else FoldAdd(Add(acc, rest[0]), rest[1..])
  }

  /**
    `reduce(add).orElseThrow()`: the fold seeded with the first element;
    an empty list raises NoSuchElementException.
   */
  function Reduce(ps: seq<Pred>): (r: Result<Pred, Error>)
    ensures r.Failure? <==> |ps| == 0
    ensures r.Failure? ==> r.error == NoSuchElement
    ensures |ps| == 1 ==> r == Success(ps[0])
  {
    if |ps| == 0 then Failure(NoSuchElement) else Success(FoldAdd(ps[0], ps[1..]))
  }

  /** Reference meaning of a list of conditions: the SQL AND of all of them, TRUE for none. */
  function Conjunction(ps: seq<Pred>, rec: Record): Truth
    decreases |ps|
  {
    if |ps| == 0 then True else And3(Eval(ps[0], rec), Conjunction(ps[1..], rec))
  }

  /** The conditions nested to the right: `p0.and(p1.and(... pn))`. */
  function RightNested(ps: seq<Pred>): Pred
    requires |ps| > 0
    decreases |ps|
  {
    if |ps| == 1 then ps[0] else Add(ps[0], RightNested(ps[1..]))
  }

  lemma {:induction false} FoldAddIsConjunction(acc: Pred, rest: seq<Pred>, rec: Record)
    ensures Eval(FoldAdd(acc, rest), rec) == And3(Eval(acc, rec), Conjunction(rest, rec))
    decreases |rest|
  {
    if |rest| > 0 {
      FoldAddIsConjunction(Add(acc, rest[0]), rest[1..], rec);
      And3Associative(Eval(acc, rec), Eval(rest[0], rec), Conjunction(rest[1..], rec));
    }
  }

  lemma {:induction false} RightNestedIsConjunction(ps: seq<Pred>, rec: Record)
    requires |ps| > 0
    ensures Eval(RightNested(ps), rec) == Conjunction(ps, rec)
    decreases |ps|
  {
    if |ps| > 1 {
      RightNestedIsConjunction(ps[1..], rec);
    }
  }

  lemma {:induction false} ConjunctionIsEvery(ps: seq<Pred>, rec: Record)
    ensures Conjunction(ps, rec) == True <==> forall i :: 0 <= i < |ps| ==> Matches(ps[i], rec)
    decreases |ps|
  {
    if |ps| > 0 {
      ConjunctionIsEvery(ps[1..], rec);
      assert forall i :: 1 <= i < |ps| ==> ps[i] == ps[1..][i - 1];
    }
  }

  /**
    The reduction of a non-empty list evaluates, under SQL's three-valued
    logic, to the AND of all its elements, and so agrees with the
    right-nested combination: grouping does not matter.
   */
  lemma ReduceIsConjunction(ps: seq<Pred>, rec: Record)
    requires |ps| > 0
    ensures Eval(Reduce(ps).value, rec) == Conjunction(ps, rec)
    ensures Eval(Reduce(ps).value, rec) == Eval(RightNested(ps), rec)
  {
    FoldAddIsConjunction(ps[0], ps[1..], rec);
    RightNestedIsConjunction(ps, rec);
  }

  /** The reduction selects a record iff every condition in the list does. */
  lemma ReduceMatchesEvery(ps: seq<Pred>, rec: Record)
    requires |ps| > 0
    ensures Matches(Reduce(ps).value, rec) <==> forall i :: 0 <= i < |ps| ==> Matches(ps[i], rec)
  {
    ReduceIsConjunction(ps, rec);
    ConjunctionIsEvery(ps, rec);
  }
}

/**
  The map-driven assembly: each entry of a query-parameter map whose key
  prints as "name" or "age" adds the matching named condition; every other
  key is skipped. The map's iteration order is unspecified, so the entries
  are given in the order the map hands them out.
 */
module QueryParams {
  import opened Wrappers
  import opened Values
  import opened Predicates
  import opened CustomerSpecifications

  /** The key's text selects a named condition. */
  predicate Recognised(key: string)
  {
    key == "name" || key == "age"
  }

  /**
    One `switch` on `key.toString()`: Some(condition) for a recognised key,
    None for a skipped one, or the exception raised by `toString` or
    `Integer.parseInt`.
   */
  function EntryFilter(k: Value, v: Value): (r: Result<Option<Pred>, Error>)
    ensures k == Null ==> r == Failure(NullPointer)
    ensures k != Null && !Recognised(Show(k)) ==> r == Success(None)
    ensures r.Success? && r.value.Some? ==> k != Null && Recognised(Show(k))
    ensures k != Null && Recognised(Show(k)) && v == Null ==> r == Failure(NullPointer)
    ensures k != Null && Show(k) == "name" && v != Null ==> r == Success(Some(CustomerHasName(Show(v))))
    ensures k != Null && Show(k) == "age" && v != Null ==>
      match ParseInt(Show(v))
      case Success(n) => r == Success(Some(CustomerHasNotAge(n)))
      case Failure(e) => r == Failure(e)
  {
    match ToText(k)
    case Failure(e) => Failure(e)
    case Success(key) =>
      if key == "name" then
        (match ToText(v)
         case Failure(e) => Failure(e)
         case Success(t) => Success(Some(CustomerHasName(t))))
      else if key == "age" then
        (match ToText(v)
         case Failure(e) => Failure(e)
         case Success(t) =>
           (match ParseInt(t)
            case Failure(e) => Failure(e)
            case Success(n) => Success(Some(CustomerHasNotAge(n)))))
      else Success(None)
  }

  /**
    The `forEach` over the entries; the first exception stops it. It
    succeeds iff every entry's filter does, yielding at most one condition
    per entry; otherwise it reports the error of the first failing entry.
   */
  function Assemble(entries: seq<(Value, Value)>): (r: Result<seq<Pred>, Error>)
    ensures r.Success? <==> forall i :: 0 <= i < |entries| ==> EntryFilter(entries[i].0, entries[i].1).Success?
    ensures r.Success? ==> |r.value| <= |entries|
    ensures r.Failure? ==>
      exists i :: 0 <= i < |entries|
        && EntryFilter(entries[i].0, entries[i].1) == Failure(r.error)
        && forall j :: 0 <= j < i ==> EntryFilter(entries[j].0, entries[j].1).Success?
    decreases |entries|
  {
    if |entries| == 0 then Success([])
    else
      match EntryFilter(entries[0].0, entries[0].1)
      case Failure(e) => Failure(e)
      case Success(head) =>
        match Assemble(entries[1..])
        case Failure(e) => Failure(e)
        case Success(tail) => Success(if head.Some? then [head.value] + tail else tail)
  }

  /** How many entries carry a recognised key. */
  function CountRecognised(entries: seq<(Value, Value)>): nat
    decreases |entries|
  {
    if |entries| == 0 then 0
    else
      var k := entries[0].0;
      (if k != Null && Recognised(Show(k)) then 1 else 0) + CountRecognised(entries[1..])
  }

  /** One condition per recognised key, none for any other. */
  lemma {:induction false} AssembleOnePerRecognisedKey(entries: seq<(Value, Value)>)
    requires Assemble(entries).Success?
    ensures |Assemble(entries).value| == CountRecognised(entries)
    decreases |entries|
  {
    if |entries| > 0 {
      AssembleOnePerRecognisedKey(entries[1..]);
    }
  }

  /** The result of running two halves of the iteration one after the other. */
  function Then(first: Result<seq<Pred>, Error>, second: Result<seq<Pred>, Error>): Result<seq<Pred>, Error>
  {
    match first
    case Failure(e) => Failure(e)
    case Success(xs) =>
      match second
      case Failure(e) => Failure(e)
      case Success(ys) => Success(xs + ys)
  }

  /** A single entry yields its own filter, or nothing when its key is skipped. */
  lemma AssembleSingle(k: Value, v: Value)
    ensures Assemble([(k, v)]) ==
      match EntryFilter(k, v)
      case Failure(e) => Failure(e)
      case Success(h) => Success(if h.Some? then [h.value] else [])
  {
    var none: seq<(Value, Value)> := [];
    var nothing: seq<Pred> := [];
    assert [(k, v)][1..] == none;
    assert Assemble(none) == Success(nothing);
    var h := EntryFilter(k, v);
    if h.Success? && h.value.Some? {
      assert [h.value.value] + nothing == [h.value.value];
    }
  }

  /**
    Iterating over `a + b` is iterating over `a`, then over `b`: it fails
    with `a`'s error, else with `b`'s, else yields `a`'s conditions followed
    by `b`'s. With AssembleSingle this fixes the contents and the order.
   */
  lemma {:induction false} AssembleConcat(a: seq<(Value, Value)>, b: seq<(Value, Value)>)
    ensures Assemble(a + b) == Then(Assemble(a), Assemble(b))
    decreases |a|
  {
    if |a| == 0 {
      assert a + b == b;
      if Assemble(b).Success? {
        var none: seq<Pred> := [];
        assert none + Assemble(b).value == Assemble(b).value;
      }
    } else {
      assert (a + b)[0] == a[0];
      assert (a + b)[1..] == a[1..] + b;
      AssembleConcat(a[1..], b);
      var head := EntryFilter(a[0].0, a[0].1);
      if head.Success? && Assemble(a[1..]).Success? && Assemble(b).Success? {
        var xs := Assemble(a[1..]).value;
        var ys := Assemble(b).value;
        if head.value.Some? {
          assert [head.value.value] + (xs + ys) == ([head.value.value] + xs) + ys;
        }
      }
    }
  }

  /** An entry with an unrecognised key, wherever it comes, changes nothing. */
  lemma AssembleSkipsUnknownKeys(a: seq<(Value, Value)>, k: Value, v: Value, b: seq<(Value, Value)>)
    requires k != Null && !Recognised(Show(k))
    ensures Assemble(a + [(k, v)] + b) == Assemble(a + b)
  {
    AssembleSingle(k, v);
    AssembleConcat(a, [(k, v)]);
    AssembleConcat(a + [(k, v)], b);
    AssembleConcat(a, b);
    if Assemble(a).Success? {
      assert Assemble(a).value + [] == Assemble(a).value;
    }
  }
}

/**
  Scenarios over the application's demo data. For the query-parameter map
  the application itself only prints the size of the assembled list; the
  reduction of that list is stated here as a consequence.
 */
module Scenarios {
  import opened Wrappers
  import opened Values
  import opened Predicates
  import opened CustomerSpecifications
  import opened SpecificationChain
  import opened QueryParams

  const Jacob: Record := Customer("jacob", 12)
  const Rober: Record := Customer("rober", 16)

  /** Reducing [hasName("jacob"), hasNotAge(16)] selects jacob (12) and not rober (16). */
  lemma NameAndAgeSelectsJacob()
    ensures var r := Reduce([CustomerHasName("jacob"), CustomerHasNotAge(16)]);
            r.Success? && Matches(r.value, Jacob) && !Matches(r.value, Rober)
  {
    var ps := [CustomerHasName("jacob"), CustomerHasNotAge(16)];
    ReduceMatchesEvery(ps, Jacob);
    ReduceMatchesEvery(ps, Rober);
    assert !Matches(ps[1], Rober);
  }

  /** Reducing a one-element list gives that element back unchanged. */
  lemma SingleNameIsItself()
    ensures Reduce([CustomerHasName("jacob")]) == Success(CustomerHasName("jacob"))
    ensures Matches(CustomerHasName("jacob"), Jacob) && !Matches(CustomerHasName("jacob"), Rober)
  {
  }

  /** Reducing an empty list raises NoSuchElementException. */
  lemma EmptyReductionFails()
    ensures Reduce([]) == Failure(NoSuchElement)
  {
  }

  /**
    The map {"name": "jacob", "age": 16}, in either iteration order, yields
    two conditions whose reduction selects jacob (12) and not rober (16).
   */
  lemma QueryParamsSelectJacob(entries: seq<(Value, Value)>)
    requires entries == [(StrV("name"), StrV("jacob")), (StrV("age"), IntV(16))]
          || entries == [(StrV("age"), IntV(16)), (StrV("name"), StrV("jacob"))]
    ensures Assemble(entries).Success? && |Assemble(entries).value| == 2
    ensures var r := Reduce(Assemble(entries).value);
            r.Success? && Matches(r.value, Jacob) && !Matches(r.value, Rober)
  {
    ParseIntRoundTrip(16);
    assert Show(IntV(16)) == IntToText(16);
    var byName := CustomerHasName("jacob");
    var byAge := CustomerHasNotAge(16);
    assert EntryFilter(StrV("name"), StrV("jacob")) == Success(Some(byName));
    assert EntryFilter(StrV("age"), IntV(16)) == Success(Some(byAge));
    var nameEntry: (Value, Value) := (StrV("name"), StrV("jacob"));
    var ageEntry: (Value, Value) := (StrV("age"), IntV(16));
    var none: seq<Pred> := [];
    assert Assemble([nameEntry]) == Success([byName]) by {
      assert |[nameEntry][1..]| == 0;
      assert EntryFilter(nameEntry.0, nameEntry.1) == Success(Some(byName));
      assert [byName] + none == [byName];
    }
    assert Assemble([ageEntry]) == Success([byAge]) by {
      assert |[ageEntry][1..]| == 0;
      assert EntryFilter(ageEntry.0, ageEntry.1) == Success(Some(byAge));
      assert [byAge] + none == [byAge];
    }
    if entries[0] == nameEntry {
      assert entries[1..] == [ageEntry];
    } else {
      assert entries[1..] == [nameEntry];
    }
    var ps := Assemble(entries).value;
    ReduceMatchesEvery(ps, Jacob);
    ReduceMatchesEvery(ps, Rober);
    assert !Matches(byAge, Rober);
  }
}
