/**
 * The basic calculator: a single-accumulator state machine over four fields
 * (the entry being edited, the left operand, the pending operator and the
 * "waiting for a new operand" flag). Operators are folded strictly left to
 * right as each new one is pressed.
 *
 * Numbers are delegated to parseFloat, String and mathjs; the engine only
 * moves their results between fields. The model takes them as an abstract
 * codec (`Numerics`) over exact reals and keeps all string and flag logic
 * exact.
 */
module BasicEngine {
  import opened Wrappers

  /** parseFloat, String and mathjs sqrt, left abstract. */
  datatype Numerics = Numerics(parse: string -> real, format: real -> string, sqrt: real -> real)

  /** The two errors the engine raises. */
  datatype CalcError = DivideByZero | NegativeSquareRoot

  function Message(e: CalcError): (m: string)
    ensures m != ""
  {
    match e
    case DivideByZero => "Cannot divide by zero"
    case NegativeSquareRoot => "Cannot calculate square root of negative number"
  }

  /** The operators calculate knows; anything else falls through to the default case. */
  const KnownOperators: set<string> := {"+", "-", "*", "×", "/", "÷", "%"}

  /** A JavaScript truthiness test on `string | null`: set and not empty. */
  predicate IsSet(op: Option<string>) {
    op.Some? && op.value != ""
  }

  // ---------------------------------------------------------------------
  // calculate
  // ---------------------------------------------------------------------

  /** mathjs mod on numbers: x - y * floor(x / y), and x itself when y is 0. */
  function Mod(x: real, y: real): real {
    if y == 0.0 then x else x - y * ((x / y).Floor as real)
  }

  /** The remainder takes the divisor's sign, is smaller than it, and differs from x by a multiple of it. */
  lemma ModIsFlooredRemainder(x: real, y: real)
    ensures y > 0.0 ==> 0.0 <= Mod(x, y) < y
    ensures y < 0.0 ==> y < Mod(x, y) <= 0.0
    ensures y != 0.0 ==> x == y * ((x / y).Floor as real) + Mod(x, y)
    ensures y == 0.0 ==> Mod(x, y) == x
  {
    if y != 0.0 {
      var q := x / y;
      var f := q.Floor as real;
      var d := q - f;
      assert x == y * q;
      assert Mod(x, y) == y * d by {
        assert y * q - y * f == y * (q - f);
      }
      ScaledFraction(y, d);
    }
  }

  /** A fraction in [0, 1) of y lies between 0 and y, on y's side. */
  lemma ScaledFraction(y: real, d: real)
    requires 0.0 <= d < 1.0
    ensures y > 0.0 ==> 0.0 <= y * d < y
    ensures y < 0.0 ==> y < y * d <= 0.0
  {
    assert y - y * d == y * (1.0 - d);
  }

  /** The pure switch of calculate. */
  function Calculate(a: real, b: real, op: string): (r: Result<real, CalcError>)
    ensures r.Failure? <==> (op == "/" || op == "÷") && b == 0.0
    ensures r.Failure? ==> r.error == DivideByZero
  {
    if op == "+" then Success(a + b)
    else if op == "-" then Success(a - b)
    else if op == "*" || op == "×" then Success(a * b)
    else if op == "/" || op == "÷" then
      if b == 0.0 then Failure(DivideByZero) else Success(a / b)
    else if op == "%" then Success(Mod(a, b))
    else Success(b)
  }

  /** Any other operator, the stored "=" among them, returns the second operand. */
  lemma CalculateDefault(a: real, b: real, op: string)
    requires op !in KnownOperators
    ensures Calculate(a, b, op) == Success(b)
  {
  }

  /** The two spellings of multiplication and of division agree; dividing undoes multiplying. */
  lemma CalculateInverses(a: real, b: real)
    ensures Calculate(a, b, "×") == Calculate(a, b, "*")
    ensures Calculate(a, b, "÷") == Calculate(a, b, "/")
    ensures Calculate(Calculate(a, b, "+").value, b, "-") == Success(a)
    ensures b != 0.0 ==> Calculate(Calculate(a, b, "*").value, b, "/") == Success(a)
  {
    if b != 0.0 {
      assert Calculate(a, b, "*") == Success(a * b);
      assert (a * b) / b == a by {
        var q := (a * b) / b;
        assert q * b == a * b;
        assert (q - a) * b == 0.0;
      }
    }
  }

  // ---------------------------------------------------------------------
  // The engine
  // ---------------------------------------------------------------------

  class Calculator {
    const num: Numerics
    var currentValue: string
    var previousValue: string
    var operator: Option<string>
    var waitingForOperand: bool

    /** The state in which a new engine starts and to which clear returns. */
    predicate IsInitial()
      reads this
    {
      currentValue == "0" && previousValue == "" && operator == None && !waitingForOperand
    }

    constructor (num: Numerics)
      ensures this.num == num && IsInitial()
    {
      this.num := num;
      currentValue := "0";
      previousValue := "";
      operator := None;
      waitingForOperand := false;
    }

    /** A fresh entry when waiting, a replaced "0", or an appended digit. */
    method InputDigit(digit: string) returns (display: string)
      modifies this
      ensures old(waitingForOperand) ==> currentValue == digit
      ensures !old(waitingForOperand) && old(currentValue) == "0" ==> currentValue == digit
      ensures !old(waitingForOperand) && old(currentValue) != "0" ==> currentValue == old(currentValue) + digit
      ensures !waitingForOperand
      ensures previousValue == old(previousValue) && operator == old(operator)
      ensures display == currentValue
    {
      if waitingForOperand {
        currentValue := digit;
        waitingForOperand := false;
      } else {
        currentValue := if currentValue == "0" then digit else currentValue + digit;
      }
      display := currentValue;
    }

    /**
     * "0." when waiting; otherwise one "." appended unless there is one already.
     * Afterwards the entry holds a "." and the flag is clear, so a second call changes nothing.
     */
    method InputDecimal() returns (display: string)
      modifies this
      ensures old(waitingForOperand) ==> currentValue == "0."
      ensures !old(waitingForOperand) && '.' !in old(currentValue) ==> currentValue == old(currentValue) + "."
      ensures !old(waitingForOperand) && '.' in old(currentValue) ==> currentValue == old(currentValue)
      ensures '.' in currentValue && !waitingForOperand
      ensures previousValue == old(previousValue) && operator == old(operator)
      ensures display == currentValue
    {
      if waitingForOperand {
        currentValue := "0.";
        waitingForOperand := false;
      } else if '.' !in currentValue {
        currentValue := currentValue + ".";
      }
      assert currentValue[|currentValue| - 1] == '.' || '.' in old(currentValue);
      display := currentValue;
    }

    /** All four fields back to their initial values. */
    method Clear() returns (display: string)
      modifies this
      ensures IsInitial() && display == "0"
    {
      currentValue := "0";
      previousValue := "";
      operator := None;
      waitingForOperand := false;
      display := currentValue;
    }

    /** Only the entry is reset; a pending operation survives. */
    method ClearEntry() returns (display: string)
      modifies this
      ensures currentValue == "0" && display == "0"
      ensures previousValue == old(previousValue) && operator == old(operator)
      ensures waitingForOperand == old(waitingForOperand)
    {
      currentValue := "0";
      display := currentValue;
    }

    /**
     * Press an operator (or "="): the first press stashes the entry as the left operand;
     * later presses fold the pending operation into both value fields. The operator
     * is then queued and the engine waits for a new operand. A division by zero fails
     * before any field is written.
     */
    method PerformOperation(nextOperator: string) returns (display: Result<string, CalcError>)
      modifies this
      ensures old(previousValue) == "" ==>
                && previousValue == currentValue == old(currentValue)
                && waitingForOperand && operator == Some(nextOperator)
                && display == Success(currentValue)
      ensures old(previousValue) != "" && !IsSet(old(operator)) ==>
                && currentValue == old(currentValue) && previousValue == old(previousValue)
                && waitingForOperand && operator == Some(nextOperator)
                && display == Success(currentValue)
      ensures old(previousValue) != "" && IsSet(old(operator)) ==>
                var r := Calculate(num.parse(old(previousValue)), num.parse(old(currentValue)), old(operator).value);
                if r.Failure? then
                  display == Failure(r.error) && unchanged(this)
                else
                  && currentValue == previousValue == num.format(r.value)
                  && waitingForOperand && operator == Some(nextOperator)
                  && display == Success(currentValue)
    {
      var inputValue := num.parse(currentValue);
      if previousValue == "" {
        previousValue := currentValue;
      } else if IsSet(operator) {
        var prevValue := num.parse(previousValue);
        var result := Calculate(prevValue, inputValue, operator.value);
        if result.Failure? {
          return Failure(result.error);
        }
        currentValue := num.format(result.value);
        previousValue := num.format(result.value);
      }
      waitingForOperand := true;
      operator := Some(nextOperator);
      display := Success(currentValue);
    }

    /** The entry divided by 100. */
    method Percentage() returns (display: string)
      modifies this
      ensures currentValue == num.format(num.parse(old(currentValue)) / 100.0) && display == currentValue
      ensures previousValue == old(previousValue) && operator == old(operator)
      ensures waitingForOperand == old(waitingForOperand)
    {
      var value := num.parse(currentValue);
      currentValue := num.format(value / 100.0);
      display := currentValue;
    }

    /** The square root of the entry; a negative entry fails and nothing changes. */
    method SquareRoot() returns (display: Result<string, CalcError>)
      modifies this
      ensures num.parse(old(currentValue)) < 0.0 ==> display == Failure(NegativeSquareRoot) && unchanged(this)
      ensures num.parse(old(currentValue)) >= 0.0 ==>
                currentValue == num.format(num.sqrt(num.parse(old(currentValue)))) && display == Success(currentValue)
      ensures previousValue == old(previousValue) && operator == old(operator)
      ensures waitingForOperand == old(waitingForOperand)
    {
      var value := num.parse(currentValue);
      if value < 0.0 {
        return Failure(NegativeSquareRoot);
      }
      currentValue := num.format(num.sqrt(value));
      display := Success(currentValue);
    }

    /** The entry squared. */
    method Square() returns (display: string)
      modifies this
      ensures currentValue == num.format(num.parse(old(currentValue)) * num.parse(old(currentValue)))
      ensures display == currentValue
      ensures previousValue == old(previousValue) && operator == old(operator)
      ensures waitingForOperand == old(waitingForOperand)
    {
      var value := num.parse(currentValue);
      currentValue := num.format(value * value);
      display := currentValue;
    }

    /** The entry with its sign flipped. */
    method Negate() returns (display: string)
      modifies this
      ensures currentValue == num.format(-num.parse(old(currentValue))) && display == currentValue
      ensures previousValue == old(previousValue) && operator == old(operator)
      ensures waitingForOperand == old(waitingForOperand)
    {
      var value := num.parse(currentValue);
      currentValue := num.format(-value);
      display := currentValue;
    }

    /** "prev op cur" exactly when an operator is set and a left operand is stored, else the entry. */
    function GetExpression(): (e: string)
      reads this
      ensures IsSet(operator) && previousValue != "" ==>
                e == previousValue + " " + operator.value + " " + currentValue
      ensures !(IsSet(operator) && previousValue != "") ==> e == currentValue
    {
      if IsSet(operator) && previousValue != "" then
        previousValue + " " + operator.value + " " + currentValue
      else
        currentValue
    }
  }

  // ---------------------------------------------------------------------
  // Key sequences
  // ---------------------------------------------------------------------

  /** The codec reads s as r and writes r as s. */
  predicate Renders(num: Numerics, r: real, s: string) {
    num.parse(s) == r && num.format(r) == s
  }

  /** 10 + 5 * 2 = gives 30: no precedence, each operator folds the pair before it. */
  method ChainFoldsLeftToRight(num: Numerics) returns (display: Result<string, CalcError>)
    requires Renders(num, 10.0, "10") && Renders(num, 5.0, "5") && Renders(num, 2.0, "2")
    requires Renders(num, 15.0, "15") && Renders(num, 30.0, "30")
    ensures display == Success("30")
  {
    var c := new Calculator(num);
    var _ := c.InputDigit("10");
    var _ := c.PerformOperation("+");
    var _ := c.InputDigit("5");
    var _ := c.PerformOperation("*");
    assert c.currentValue == "15";
    var _ := c.InputDigit("2");
    display := c.PerformOperation("=");
  }

  /** 5 + 3 + 2 = gives 10. */
  method RepeatedAddition(num: Numerics) returns (display: Result<string, CalcError>)
    requires Renders(num, 5.0, "5") && Renders(num, 3.0, "3") && Renders(num, 2.0, "2")
    requires Renders(num, 8.0, "8") && Renders(num, 10.0, "10")
    ensures display == Success("10")
  {
    var c := new Calculator(num);
    var _ := c.InputDigit("5");
    var _ := c.PerformOperation("+");
    var _ := c.InputDigit("3");
    var _ := c.PerformOperation("+");
    assert c.currentValue == "8";
    var _ := c.InputDigit("2");
    display := c.PerformOperation("=");
  }

  /** 5 / 0 = fails, and the engine still holds 5, / and the entry 0. */
  method DivisionByZeroKeepsState(num: Numerics) returns (display: Result<string, CalcError>, expression: string)
    requires Renders(num, 5.0, "5") && Renders(num, 0.0, "0")
    ensures display == Failure(DivideByZero)
    ensures expression == "5 / 0"
  {
    var c := new Calculator(num);
    var _ := c.InputDigit("5");
    var _ := c.PerformOperation("/");
    var _ := c.InputDigit("0");
    display := c.PerformOperation("=");
    expression := c.GetExpression();
  }
}
