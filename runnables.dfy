/** The runnables of langchain_app/chains_runners/simple_runnable_pass_lambda.py:
    a passthrough, an upper-casing lambda and `custom_function_call`,
    chained in that order. */
module Runnables {
  import opened Text

  const PREFIX: string := "Custom Function Processed: "

  /** `RunnablePassthrough()`: the input, unchanged. */
  function Passthrough(x: string): (r: string)
    ensures r == x
  {
    x
  }

  /** `custom_function_call(text)`: the prefix, then the text reversed. */
  function CustomFunctionCall(text: string): (r: string)
    ensures |r| == |PREFIX| + |text|
    ensures r[..|PREFIX|] == PREFIX
    ensures forall i :: |PREFIX| <= i < |r| ==> r[i] == text[|r| - 1 - i]
  {
    PREFIX + Reverse(text)
  }

  /** The text can be read back from the result: reverse what follows the prefix. */
  lemma CustomFunctionCallInverse(text: string)
    ensures Reverse(CustomFunctionCall(text)[|PREFIX|..]) == text
  {
    assert CustomFunctionCall(text)[|PREFIX|..] == Reverse(text);
    ReverseReverse(text);
  }

  /** `passthrough | uppercase | custom_function`. */
  function Chained(input: string): string {
    CustomFunctionCall(Upper(Passthrough(input)))
  }

  /** The chain upper-cases before it reverses; since the two commute, the
      result is the prefix followed by the upper-cased input read backwards. */
  lemma ChainedOrder(input: string)
    ensures Chained(input) == CustomFunctionCall(Upper(input))
    ensures Chained(input) == PREFIX + Upper(Reverse(input))
  {
    var a, b := Reverse(Upper(input)), Upper(Reverse(input));
    assert |a| == |b|;
    forall i | 0 <= i < |a| ensures a[i] == b[i] {
      assert a[i] == Upper(input)[|input| - 1 - i];
    }
  }
}
