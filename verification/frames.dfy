/** An analyzer frame: the abstract local variables and operand stack on entry
    to one instruction. The top of the stack is its last element. */
module Frames {

  datatype Frame<V> = Frame(locals: seq<V>, stack: seq<V>)
  {
    /** `getStackTop()`. */
    function StackTop(): V
      requires |stack| > 0
    {
      stack[|stack| - 1]
    }
  }
}
