/** The calculator: for two numbers and a list of operation names it computes
    each of the four recognised operations that is named in the list and
    returns the results in a dict keyed by the operation's name. Division by
    zero is reported in the dict as a message, not raised. */
module Calculator {
  import opened Dicts

  /** The four operations the calculator recognises. */
  datatype Op = Add | Subtract | Multiply | Divide

  /** The name under which an operation is requested and its result stored. */
  function Name(op: Op): string {
    match op
    case Add => "add"
    case Subtract => "subtract"
    case Multiply => "multiply"
    case Divide => "divide"
  }

  /** The order in which the calculator checks for the operations, and
      therefore the order in which their results enter the dict. */
  const CheckOrder: seq<Op> := [Add, Subtract, Multiply, Divide]

  /** The recognised names, in check order. */
  const SupportedNames: seq<string> := ["add", "subtract", "multiply", "divide"]

  /** The text stored under "divide" when the divisor is zero. */
  const DivisionByZero: string := "Error: Division by zero"

  /** A value in the result dict: a number, or the division-by-zero text. */
  datatype Value = Number(n: real) | Text(s: string)

  /** The value the calculator stores for `op` on operands `a` and `b`. */
  function Apply(op: Op, a: real, b: real): Value {
    match op
    case Add => Number(a + b)
    case Subtract => Number(a - b)
    case Multiply => Number(a * b)
    case Divide => if b != 0.0 then Number(a / b) else Text(DivisionByZero)
  }

  /** The position of `op` in the check order. */
  function Rank(op: Op): (p: nat)
    ensures p < |CheckOrder| && CheckOrder[p] == op
  {
    match op
    case Add => 0
    case Subtract => 1
    case Multiply => 2
    case Divide => 3
  }

  /** The operations of `r` come in check order. */
  ghost predicate Ascending(r: seq<Op>) {
    forall i, j :: 0 <= i < j < |r| ==> Rank(r[i]) < Rank(r[j])
  }

  /** `x` is checked, and so inserted, before `y`. */
  ghost predicate CheckedBefore(x: string, y: string) {
    exists p, q :: 0 <= p < q < |SupportedNames| && SupportedNames[p] == x && SupportedNames[q] == y
  }

  /** The operations of `candidates`, kept in their order, whose names occur
      anywhere in `operations`. */
  function Requested(operations: seq<string>, candidates: seq<Op>): (r: seq<Op>)
    ensures forall op :: op in r <==> op in candidates && Name(op) in operations
  {
    if candidates == [] then []
    else
      var last := candidates[|candidates| - 1];
      var prior := Requested(operations, candidates[..|candidates| - 1]);
      if Name(last) in operations then prior + [last] else prior
  }

  /** The dict obtained by storing the value of each operation of `ops`, in
      turn, under its name, starting from the empty dict. */
  function Tabulate(a: real, b: real, ops: seq<Op>): Dict<Value>
  {
    if ops == [] then Empty()
    else
      var last := ops[|ops| - 1];
      Put(Tabulate(a, b, ops[..|ops| - 1]), Name(last), Apply(last, a, b))
  }

  /** The dict the calculator returns: the recognised operations named in
      `operations`, tabulated in check order. */
  function Expected(a: real, b: real, operations: seq<string>): Dict<Value> {
    Tabulate(a, b, Requested(operations, CheckOrder))
  }

  /** The calculator: checks each recognised name in turn and inserts the
      corresponding result into an initially empty dict. */
  method Calculate(a: real, b: real, operations: seq<string>) returns (results: Dict<Value>)
    ensures results == Expected(a, b, operations)
  {
    results := Empty();
    ghost var checked := results;
    if "add" in operations {
      results := Put(results, "add", Number(a + b));
    }
    CheckSpelled(a, b, operations, checked);
    assert results == AfterCheck(a, b, operations, checked, Add);
    checked := results;
    if "subtract" in operations {
      results := Put(results, "subtract", Number(a - b));
    }
    CheckSpelled(a, b, operations, checked);
    assert results == AfterCheck(a, b, operations, checked, Subtract);
    checked := results;
    if "multiply" in operations {
      results := Put(results, "multiply", Number(a * b));
    }
    CheckSpelled(a, b, operations, checked);
    assert results == AfterCheck(a, b, operations, checked, Multiply);
    checked := results;
    if "divide" in operations {
      if b != 0.0 {
        results := Put(results, "divide", Number(a / b));
      } else {
        results := Put(results, "divide", Text(DivisionByZero));
      }
    }
    CheckSpelled(a, b, operations, checked);
    assert results == AfterCheck(a, b, operations, checked, Divide);
    ExpectedByChecks(a, b, operations);
  }

  /** The dict after checking whether `op` is requested, starting from `d`. */
  function AfterCheck(a: real, b: real, operations: seq<string>, d: Dict<Value>, op: Op): Dict<Value> {
    if Name(op) in operations then Put(d, Name(op), Apply(op, a, b)) else d
  }

  /** `AfterCheck` written out for each operation, as the calculator's code spells it. */
  lemma CheckSpelled(a: real, b: real, operations: seq<string>, d: Dict<Value>)
    ensures AfterCheck(a, b, operations, d, Add) ==
      if "add" in operations then Put(d, "add", Number(a + b)) else d
    ensures AfterCheck(a, b, operations, d, Subtract) ==
      if "subtract" in operations then Put(d, "subtract", Number(a - b)) else d
    ensures AfterCheck(a, b, operations, d, Multiply) ==
      if "multiply" in operations then Put(d, "multiply", Number(a * b)) else d
    ensures AfterCheck(a, b, operations, d, Divide) ==
      if "divide" in operations then
        Put(d, "divide", if b != 0.0 then Number(a / b) else Text(DivisionByZero))
      else d
  {
    assert Name(Add) == "add" && Name(Subtract) == "subtract";
    assert Name(Multiply) == "multiply" && Name(Divide) == "divide";
    assert Apply(Multiply, a, b) == Number(a * b);
  }

  /** Checking one more candidate extends the dict of the requests among
      the candidates checked so far by that candidate's entry, if requested. */
  lemma CheckStep(a: real, b: real, operations: seq<string>, checked: seq<Op>, op: Op)
    ensures Tabulate(a, b, Requested(operations, checked + [op])) ==
      AfterCheck(a, b, operations, Tabulate(a, b, Requested(operations, checked)), op)
  {
    RequestedSnoc(operations, checked, op);
    if Name(op) in operations {
      TabulateSnoc(a, b, Requested(operations, checked), op);
    }
  }

  /** `Expected` is the empty dict put through the four checks in check order. */
  lemma ExpectedByChecks(a: real, b: real, operations: seq<string>)
    ensures Expected(a, b, operations) ==
      var d1 := AfterCheck(a, b, operations, Empty(), Add);
      var d2 := AfterCheck(a, b, operations, d1, Subtract);
      var d3 := AfterCheck(a, b, operations, d2, Multiply);
      AfterCheck(a, b, operations, d3, Divide)
  {
    var d1 := AfterCheck(a, b, operations, Empty(), Add);
    var d2 := AfterCheck(a, b, operations, d1, Subtract);
    var d3 := AfterCheck(a, b, operations, d2, Multiply);
    assert Tabulate(a, b, Requested(operations, [])) == Empty();
    CheckStep(a, b, operations, [], Add);
    assert [] + [Add] == [Add];
    assert Tabulate(a, b, Requested(operations, [Add])) == d1;
    CheckStep(a, b, operations, [Add], Subtract);
    assert [Add] + [Subtract] == [Add, Subtract];
    assert Tabulate(a, b, Requested(operations, [Add, Subtract])) == d2;
    CheckStep(a, b, operations, [Add, Subtract], Multiply);
    assert [Add, Subtract] + [Multiply] == [Add, Subtract, Multiply];
    assert Tabulate(a, b, Requested(operations, [Add, Subtract, Multiply])) == d3;
    CheckStep(a, b, operations, [Add, Subtract, Multiply], Divide);
    assert [Add, Subtract, Multiply] + [Divide] == CheckOrder;
  }

  /** One step of `Tabulate`. */
  lemma TabulateSnoc(a: real, b: real, ops: seq<Op>, op: Op)
    ensures Tabulate(a, b, ops + [op]) == Put(Tabulate(a, b, ops), Name(op), Apply(op, a, b))
  {
    assert (ops + [op])[..|ops|] == ops;
  }

  /** One step of `Requested`. */
  lemma RequestedSnoc(operations: seq<string>, cs: seq<Op>, c: Op)
    ensures Requested(operations, cs + [c]) ==
      Requested(operations, cs) + (if Name(c) in operations then [c] else [])
  {
    assert (cs + [c])[..|cs|] == cs;
  }

  /** Different operations have different names. */
  lemma NameInjective(x: Op, y: Op)
    ensures Name(x) == Name(y) ==> x == y
  {
    assert "add"[0] != "subtract"[0] && "add"[0] != "multiply"[0] && "add"[0] != "divide"[0];
    assert "subtract"[0] != "multiply"[0] && "subtract"[0] != "divide"[0];
    assert "multiply"[0] != "divide"[0];
  }

  /** Tabulating always gives a well-formed dict. */
  lemma {:induction false} TabulateValid(a: real, b: real, ops: seq<Op>)
    ensures Tabulate(a, b, ops).Valid()
  {
    if ops != [] {
      var last := ops[|ops| - 1];
      TabulateValid(a, b, ops[..|ops| - 1]);
      PutKeepsValid(Tabulate(a, b, ops[..|ops| - 1]), Name(last), Apply(last, a, b));
    }
  }

  /** Tabulating distinct operations gives one key per operation, in their
      order, holding that operation's value, and no other key. */
  lemma {:induction false} TabulateContents(a: real, b: real, ops: seq<Op>)
    requires Distinct(ops)
    ensures |Tabulate(a, b, ops).keys| == |ops|
    ensures forall i :: 0 <= i < |ops| ==> Tabulate(a, b, ops).keys[i] == Name(ops[i])
    ensures forall op :: Name(op) in Tabulate(a, b, ops).entries <==> op in ops
    ensures forall op :: op in ops ==> Tabulate(a, b, ops).entries[Name(op)] == Apply(op, a, b)
  {
    if ops != [] {
      var n := |ops| - 1;
      var init, last := ops[..n], ops[n];
      assert ops == init + [last];
      TabulateContents(a, b, init);
      var d := Tabulate(a, b, init);
      assert Tabulate(a, b, ops) == Put(d, Name(last), Apply(last, a, b));
      assert Name(last) !in d.entries;
      assert Tabulate(a, b, ops).keys == d.keys + [Name(last)];
      forall op ensures Name(op) in Tabulate(a, b, ops).entries <==> op in ops {
        NameInjective(op, last);
        assert op in ops <==> op in init || op == last;
      }
    }
  }

  /** Of candidates in check order, `Requested` keeps that order. */
  lemma {:induction false} RequestedAscending(operations: seq<string>, candidates: seq<Op>)
    requires Ascending(candidates)
    ensures Ascending(Requested(operations, candidates))
  {
    if candidates != [] {
      var n := |candidates| - 1;
      var init, last := candidates[..n], candidates[n];
      assert candidates == init + [last];
      AscendingInit(candidates);
      RequestedAscending(operations, init);
      RequestedSnoc(operations, init, last);
      if Name(last) in operations {
        AscendingSnoc(Requested(operations, init), last);
      }
    }
  }

  /** Dropping the last element keeps the order, and that element ranks
      above all the others. */
  lemma AscendingInit(s: seq<Op>)
    requires s != [] && Ascending(s)
    ensures Ascending(s[..|s| - 1])
    ensures forall y :: y in s[..|s| - 1] ==> Rank(y) < Rank(s[|s| - 1])
  {
    var init := s[..|s| - 1];
    forall y | y in init ensures Rank(y) < Rank(s[|s| - 1]) {
      var i :| 0 <= i < |init| && init[i] == y;
      assert s[i] == y;
    }
  }

  /** Appending an element that ranks above all others keeps the order. */
  lemma AscendingSnoc(r: seq<Op>, x: Op)
    requires Ascending(r)
    requires forall y :: y in r ==> Rank(y) < Rank(x)
    ensures Ascending(r + [x])
  {
    var r' := r + [x];
    forall i, j | 0 <= i < j < |r'| ensures Rank(r'[i]) < Rank(r'[j]) {
      if j == |r| {
        assert r'[i] == r[i] && r[i] in r;
      } else {
        assert r'[i] == r[i] && r'[j] == r[j];
      }
    }
  }

  /** Of distinct candidates, `Requested` picks each at most once. */
  lemma {:induction false} RequestedDistinct(operations: seq<string>, candidates: seq<Op>)
    requires Distinct(candidates)
    ensures Distinct(Requested(operations, candidates))
  {
    if candidates != [] {
      var n := |candidates| - 1;
      var init, last := candidates[..n], candidates[n];
      assert candidates == init + [last];
      RequestedDistinct(operations, init);
      var prior := Requested(operations, init);
      var r := Requested(operations, candidates);
      assert r == prior + (if Name(last) in operations then [last] else []);
      forall i, j | 0 <= i < j < |r| ensures r[i] != r[j] {
        if j == |prior| {
          assert prior[i] in init;
          assert last !in init;
        }
      }
    }
  }

  /** `Requested` depends on `operations` only through which candidate names occur in it. */
  lemma {:induction false} RequestedAgree(ops1: seq<string>, ops2: seq<string>, candidates: seq<Op>)
    requires forall op :: op in candidates ==> (Name(op) in ops1 <==> Name(op) in ops2)
    ensures Requested(ops1, candidates) == Requested(ops2, candidates)
  {
    if candidates != [] {
      var n := |candidates| - 1;
      assert candidates == candidates[..n] + [candidates[n]];
      RequestedAgree(ops1, ops2, candidates[..n]);
    }
  }

  /** The recognised names are the operations' names, in check order. */
  lemma NameAt(p: int)
    requires 0 <= p < |CheckOrder|
    ensures SupportedNames[p] == Name(CheckOrder[p])
  {
  }

  /** Every operation is checked, and its name is a recognised one. */
  lemma Checked(op: Op)
    ensures op in CheckOrder && Name(op) in SupportedNames
  {
    match op
    case Add => assert CheckOrder[0] == op && SupportedNames[0] == Name(op);
    case Subtract => assert CheckOrder[1] == op && SupportedNames[1] == Name(op);
    case Multiply => assert CheckOrder[2] == op && SupportedNames[2] == Name(op);
    case Divide => assert CheckOrder[3] == op && SupportedNames[3] == Name(op);
  }

  /** An operation's name is a key of the result exactly when it is
      requested, and then it holds that operation's value. */
  lemma ExpectedEntries(a: real, b: real, operations: seq<string>)
    ensures forall op :: Name(op) in Expected(a, b, operations).entries <==> Name(op) in operations
    ensures forall op :: Name(op) in operations ==>
      Name(op) in Expected(a, b, operations).entries && Expected(a, b, operations).entries[Name(op)] == Apply(op, a, b)
  {
    var req := Requested(operations, CheckOrder);
    RequestedDistinct(operations, CheckOrder);
    TabulateContents(a, b, req);
    forall op | Name(op) in operations ensures op in req {
      Checked(op);
    }
  }

  /** The result's keys are the names of the requested operations, taken in
      check order, each once. */
  lemma ExpectedKeys(a: real, b: real, operations: seq<string>)
    ensures Distinct(Requested(operations, CheckOrder))
    ensures Ascending(Requested(operations, CheckOrder))
    ensures |Expected(a, b, operations).keys| == |Requested(operations, CheckOrder)|
    ensures forall i :: 0 <= i < |Expected(a, b, operations).keys| ==>
      Expected(a, b, operations).keys[i] == Name(Requested(operations, CheckOrder)[i])
  {
    RequestedAscending(operations, CheckOrder);
    RequestedDistinct(operations, CheckOrder);
    TabulateContents(a, b, Requested(operations, CheckOrder));
  }

  // ---------------------------------------------------------------------
  // Properties of the result
  // ---------------------------------------------------------------------

  /** The result is a well-formed dict whose keys are exactly the recognised
      names that occur in `operations`; unknown names never become keys. */
  lemma ResultKeys(a: real, b: real, operations: seq<string>)
    ensures Expected(a, b, operations).Valid()
    ensures forall k :: k in Expected(a, b, operations).entries <==> k in SupportedNames && k in operations
  {
    var d := Expected(a, b, operations);
    TabulateValid(a, b, Requested(operations, CheckOrder));
    ExpectedEntries(a, b, operations);
    ExpectedKeys(a, b, operations);
    forall k ensures k in d.entries <==> k in SupportedNames && k in operations {
      if k in d.entries {
        var i :| 0 <= i < |d.keys| && d.keys[i] == k;
        Checked(Requested(operations, CheckOrder)[i]);
      }
      if k in SupportedNames {
        var p :| 0 <= p < |SupportedNames| && SupportedNames[p] == k;
        NameAt(p);
      }
    }
  }

  /** The keys are listed in check order: add, subtract, multiply, divide,
      whatever the order of `operations`. */
  lemma ResultKeysInCheckOrder(a: real, b: real, operations: seq<string>)
    ensures forall i, j :: 0 <= i < j < |Expected(a, b, operations).keys| ==>
      CheckedBefore(Expected(a, b, operations).keys[i], Expected(a, b, operations).keys[j])
  {
    var d := Expected(a, b, operations);
    var req := Requested(operations, CheckOrder);
    ExpectedKeys(a, b, operations);
    forall i, j | 0 <= i < j < |d.keys| ensures CheckedBefore(d.keys[i], d.keys[j]) {
      var p, q := Rank(req[i]), Rank(req[j]);
      NameAt(p);
      NameAt(q);
    }
  }

  /** Each requested operation's value: the sum, the difference, the
      product, and the true quotient or, for a zero divisor, the
      division-by-zero text. A zero divisor does not affect the other keys. */
  lemma ResultValues(a: real, b: real, operations: seq<string>)
    ensures "add" in operations ==>
      "add" in Expected(a, b, operations).entries && Expected(a, b, operations).entries["add"] == Number(a + b)
    ensures "subtract" in operations ==>
      "subtract" in Expected(a, b, operations).entries && Expected(a, b, operations).entries["subtract"] == Number(a - b)
    ensures "multiply" in operations ==>
      "multiply" in Expected(a, b, operations).entries && Expected(a, b, operations).entries["multiply"] == Number(a * b)
    ensures "divide" in operations && b != 0.0 ==>
      "divide" in Expected(a, b, operations).entries && Expected(a, b, operations).entries["divide"] == Number(a / b)
    ensures "divide" in operations && b == 0.0 ==>
      "divide" in Expected(a, b, operations).entries && Expected(a, b, operations).entries["divide"] == Text("Error: Division by zero")
  {
    ExpectedEntries(a, b, operations);
    assert Name(Add) == "add" && Name(Subtract) == "subtract";
    assert Name(Multiply) == "multiply" && Name(Divide) == "divide";
  }

  /** The result is empty exactly when no recognised name occurs in
      `operations`, in particular for an empty list. */
  lemma NothingRecognised(a: real, b: real, operations: seq<string>)
    ensures Expected(a, b, operations) == Empty() <==> forall n :: n in SupportedNames ==> n !in operations
    ensures Expected(a, b, []) == Empty()
  {
    ResultKeys(a, b, operations);
    ResultKeys(a, b, []);
    if forall n :: n in SupportedNames ==> n !in operations {
      assert Expected(a, b, operations).entries == map[];
    }
    assert Expected(a, b, []).entries == map[];
  }

  /** The result depends on `operations` only through which recognised
      names occur in it. */
  lemma SameNamesSameResult(a: real, b: real, ops1: seq<string>, ops2: seq<string>)
    requires forall n :: n in SupportedNames ==> (n in ops1 <==> n in ops2)
    ensures Expected(a, b, ops1) == Expected(a, b, ops2)
  {
    forall op | op in CheckOrder ensures Name(op) in ops1 <==> Name(op) in ops2 {
      assert Name(op) in SupportedNames;
    }
    RequestedAgree(ops1, ops2, CheckOrder);
  }

  /** Naming an operation a second time changes nothing. */
  lemma RepeatedNameIgnored(a: real, b: real, before: seq<string>, n: string, after: seq<string>)
    requires n in before + after
    ensures Expected(a, b, before + [n] + after) == Expected(a, b, before + after)
  {
    SameNamesSameResult(a, b, before + [n] + after, before + after);
  }

  /** A name the calculator does not recognise changes nothing. */
  lemma UnrecognisedNameIgnored(a: real, b: real, before: seq<string>, n: string, after: seq<string>)
    requires n !in SupportedNames
    ensures Expected(a, b, before + [n] + after) == Expected(a, b, before + after)
  {
    SameNamesSameResult(a, b, before + [n] + after, before + after);
  }

  /** Reordering `operations` changes nothing. */
  lemma RequestOrderIgnored(a: real, b: real, ops1: seq<string>, ops2: seq<string>)
    requires multiset(ops1) == multiset(ops2)
    ensures Expected(a, b, ops1) == Expected(a, b, ops2)
  {
    forall n | n in SupportedNames ensures n in ops1 <==> n in ops2 {
      assert n in ops1 <==> n in multiset(ops1);
      assert n in ops2 <==> n in multiset(ops2);
    }
    SameNamesSameResult(a, b, ops1, ops2);
  }

  /** The value stored for an operation is the one it gets when requested
      alone: it does not depend on which other operations are requested. */
  lemma ValueIndependentOfOthers(a: real, b: real, operations: seq<string>, op: Op)
    requires Name(op) in operations
    ensures Name(op) in Expected(a, b, operations).entries
    ensures Name(op) in Expected(a, b, [Name(op)]).entries
    ensures Expected(a, b, operations).entries[Name(op)] == Expected(a, b, [Name(op)]).entries[Name(op)]
  {
    ExpectedEntries(a, b, operations);
    ExpectedEntries(a, b, [Name(op)]);
  }

  // ---------------------------------------------------------------------
  // Worked examples
  // ---------------------------------------------------------------------

  /** 215 + 90 is positive. */
  lemma AddScenario()
    ensures "add" in Expected(215.0, 90.0, ["add"]).entries
    ensures Expected(215.0, 90.0, ["add"]).entries["add"] == Number(305.0)
    ensures Expected(215.0, 90.0, ["add"]).entries["add"].n > 0.0
  {
    ResultValues(215.0, 90.0, ["add"]);
  }

  /** 100 - 70 is positive. */
  lemma SubtractScenario()
    ensures "subtract" in Expected(100.0, 70.0, ["subtract"]).entries
    ensures Expected(100.0, 70.0, ["subtract"]).entries["subtract"] == Number(30.0)
    ensures Expected(100.0, 70.0, ["subtract"]).entries["subtract"].n > 0.0
  {
    ResultValues(100.0, 70.0, ["subtract"]);
  }

  /** 60 / 20 is a number, and at least 1. */
  lemma DivideScenario()
    ensures "divide" in Expected(60.0, 20.0, ["divide"]).entries
    ensures Expected(60.0, 20.0, ["divide"]).entries["divide"] == Number(3.0)
    ensures Expected(60.0, 20.0, ["divide"]).entries["divide"].n >= 1.0
  {
    ResultValues(60.0, 20.0, ["divide"]);
  }

  /** Dividing by zero stores the message. */
  lemma DivideByZeroScenario()
    ensures "divide" in Expected(5.0, 0.0, ["divide"]).entries
    ensures Expected(5.0, 0.0, ["divide"]).entries["divide"] == Text("Error: Division by zero")
  {
    ResultValues(5.0, 0.0, ["divide"]);
  }
}
