/**
 * The calculator server: one tool that applies an arithmetic operation named by a string,
 * over integer operands, and one resource holding a greeting.
 */
module Calculator {
  import opened Strings

  /** What the tool returns: a number, a message, or the two-decimal text of the true
      quotient `a / b`, that is, `(a / b).__format__(".2f")`. The model names that text
      without producing its characters. */
  datatype Answer = Number(n: int) | Text(message: string) | FormattedQuotient(dividend: int, divisor: int)

  const DivideByZero := "Cannot divide by zero!"
  const InvalidOperation := "Invalid operation"
  const Greeting := "Welcome to mcp server calculator!"

  /** The operation names the tool knows, in lower case. */
  predicate IsKnownOperation(op: string) {
    op == "add" || op == "subtract" || op == "multiply" || op == "divide"
  }

  /** `calculator(operation, a, b)`: the operation is lower-cased and then matched. */
  function Calculate(operation: string, a: int, b: int): (r: Answer)
    ensures Lower(operation) == "add" ==> r == Number(a + b)
    ensures Lower(operation) == "subtract" ==> r == Number(a - b)
    ensures Lower(operation) == "multiply" ==> r == Number(a * b)
    ensures Lower(operation) == "divide" && b == 0 ==> r == Text(DivideByZero)
    ensures Lower(operation) == "divide" && b != 0 ==> r == FormattedQuotient(a, b)
    ensures !IsKnownOperation(Lower(operation)) ==> r == Text(InvalidOperation)
  {
    match Lower(operation)
    case "add" => Number(a + b)
    case "subtract" => Number(a - b)
    case "multiply" => Number(a * b)
    case "divide" => if b == 0 then Text(DivideByZero) else FormattedQuotient(a, b)
    case _ => Text(InvalidOperation)
  }

  /** Operation names that differ only in letter case select the same operation. */
  lemma CalculateIgnoresCase(op1: string, op2: string, a: int, b: int)
    requires Lower(op1) == Lower(op2)
    ensures Calculate(op1, a, b) == Calculate(op2, a, b)
  {
  }

  /** In particular the upper-case spelling of an operation behaves like the operation. */
  lemma UpperCaseOperation(op: string, a: int, b: int)
    ensures Calculate(Upper(op), a, b) == Calculate(op, a, b)
  {
    LowerOfUpper(op);
    CalculateIgnoresCase(Upper(op), op, a, b);
  }

  /** "Invalid operation" comes back exactly for the names outside the four operations. */
  lemma InvalidExactlyForUnknown(operation: string, a: int, b: int)
    ensures Calculate(operation, a, b) == Text(InvalidOperation) <==> !IsKnownOperation(Lower(operation))
  {
    assert DivideByZero[0] != InvalidOperation[0];
  }

  /** A zero divisor never reaches the division: no operation yields a quotient by zero. */
  lemma NoDivisionByZero(operation: string, a: int)
    ensures !Calculate(operation, a, 0).FormattedQuotient?
  {
  }

  /** Only "divide" produces a quotient, and then with the operands in order. */
  lemma QuotientOnlyFromDivide(operation: string, a: int, b: int)
    requires Calculate(operation, a, b).FormattedQuotient?
    ensures Lower(operation) == "divide" && b != 0
    ensures Calculate(operation, a, b) == FormattedQuotient(a, b)
  {
  }

  /** The `calculator://greetings` resource. */
  function GetGreetings(): (greeting: string)
    ensures greeting == Greeting
  {
    Greeting
  }
}
