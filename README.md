# Calculator

A model of the function `calculator(a, b, operations)`. It takes two numbers
and a list of operation names. For each of the four recognised names — `add`,
`subtract`, `multiply`, `divide`, checked in that fixed order — it tests whether
the name occurs anywhere in the list. If it does, the function stores that
operation's result in a dict under the name. Division by a zero divisor does
not raise: the text `"Error: Division by zero"` is stored under `divide` instead.

The model has two files.

- `dicts.dfy` (module `Dicts`) models the part of Python's dict the calculator
  uses:
  - the empty dict;
  - item assignment, which adds a new key at the end of the insertion order or
    overwrites the value of an existing key in place.

  A dict is a value made of a key sequence, which gives the insertion order,
  and a map.
- `calculator.dfy` (module `Calculator`) has:
  - the operations (`Op`), their names and their values (`Apply`);
  - the result values: `Number` for an exact real, `Text` for the
    division-by-zero message;
  - a specification function `Expected`. It picks the requested operations in
    check order (`Requested`) and inserts their values one by one (`Tabulate`);
  - the method `Calculate`. It mirrors the function's body: an empty dict,
    then four conditional insertions. It is proved to return `Expected`;
  - lemmas stating what the result is.

The local `results` dict is never shared, so the method reassigns a dict value
rather than mutating an object.

## Model

| member | source | states |
|---|---|---|
| Dicts.Empty | calculator.py:15 | `{}` is a well-formed dict with no keys and no entries |
| Dicts.PutKeepsValid | calculator.py:18-31 | each item assignment `d[k] = v` (lines 18, 21, 24, 28 and 31) keeps the dict well formed, maps `k` to `v`, appends a new `k` at the end of the insertion order while an existing `k` keeps its place, and leaves every other key's presence and value unchanged |
| Calculator.Calculate | calculator.py:15-33 | the dict built by the four conditional insertions equals the specification `Expected(a, b, operations)` |
| Calculator.Requested | calculator.py:17-26 | an operation is picked exactly when it is a candidate and its name occurs in `operations` |
| Calculator.ExpectedByChecks | calculator.py:17-31 | the specification equals the empty dict passed through the four checks (add, subtract, multiply, divide), each inserting its value only when its name is requested |
| Calculator.TabulateValid | calculator.py:15-31 | inserting operation results one by one always yields a well-formed dict |
| Calculator.TabulateContents | calculator.py:17-31 | inserting distinct operations gives one key per operation, in insertion order, holding that operation's value, and no other key |
| Calculator.RequestedAscending | calculator.py:17-26 | picking requested operations from candidates in check order keeps check order |
| Calculator.RequestedDistinct | calculator.py:17-26 | the operations picked from distinct candidates are distinct, so no key is inserted twice |
| Calculator.RequestedAgree | calculator.py:17-26 | which operations are picked depends only on which candidate names occur in `operations` |
| Calculator.ExpectedEntries | calculator.py:17-31 | an operation's name is a key exactly when it is requested, and then it maps to that operation's value |
| Calculator.ExpectedKeys | calculator.py:17-31 | the keys are the names of the requested operations, each once, in check order |
| Calculator.ResultKeys | calculator.py:15-31 | the result is well formed, and its keys are exactly the recognised names that occur in `operations`; unknown names never become keys |
| Calculator.ResultKeysInCheckOrder | calculator.py:17-31 | any two keys appear in the order add, subtract, multiply, divide, whatever the order of `operations` |
| Calculator.ResultValues | calculator.py:17-31 | a requested `add`, `subtract` or `multiply` holds `a + b`, `a - b` or `a * b`; a requested `divide` holds the real quotient when `b != 0`, and the division-by-zero text when `b == 0` |
| Calculator.NothingRecognised | calculator.py:15-33 | the result is the empty dict exactly when no recognised name occurs in `operations`, in particular for an empty list |
| Calculator.SameNamesSameResult | calculator.py:17-26 | two lists that contain the same recognised names give the same result |
| Calculator.RepeatedNameIgnored | calculator.py:17-26 | repeating a name that is already in the list changes nothing |
| Calculator.UnrecognisedNameIgnored | calculator.py:17-26 | inserting an unrecognised name anywhere in the list changes nothing |
| Calculator.RequestOrderIgnored | calculator.py:17-26 | any permutation of the list gives the same result |
| Calculator.ValueIndependentOfOthers | calculator.py:17-31 | the value stored for an operation equals the one it gets when requested alone |
| Calculator.AddScenario | tests/test_calculator_logic.py:9-11 | `calculator(215, 90, ['add'])` stores 305 under `add`, which is positive |
| Calculator.SubtractScenario | tests/test_calculator_logic.py:13-15 | `calculator(100, 70, ['subtract'])` stores 30 under `subtract`, which is positive |
| Calculator.DivideScenario | tests/test_calculator_logic.py:17-20 | `calculator(60, 20, ['divide'])` stores the number 3 under `divide`, which is at least 1 |
| Calculator.DivideByZeroScenario | calculator.py:26-31 | dividing by zero stores the text `"Error: Division by zero"` under `divide` |

## Left out

- The `__main__` block (calculator.py:35-40) only prints the result for 90 and 80 to the console.
- Floating point: operands and results are exact reals and `/` is real division. IEEE-754 rounding, infinities, NaN and signed zero are not modelled, and neither is the distinction between Python `int` and `float` (`60/20` is the float `3.0`). Python raises `OverflowError` in exactly two cases: when one operand is a float and the other is an int too large to convert to a float (for example `calculator(10**400, 1.0, ['add'])`), and when `/` on two ints has a quotient beyond the float range (for example `calculator(10**400, 1, ['divide'])`); the model has no such error and stores the exact result. The test's "is a number" check (tests/test_calculator_logic.py:19) is modelled as the stored value being a `Number`.
- Non-numeric operands are not modelled. The docstring (calculator.py:6-7) restricts `a` and `b` to int or float, and the function defines nothing for other types.
- `operations` is modelled as a list of strings. Passing a string instead would make Python's `in` a substring test; that is not modelled.
- The test harness (tests/test_calculator_logic.py:1-7 and 22-26) only sets up the import path and calls the tests.
