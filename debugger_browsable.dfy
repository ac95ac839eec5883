/**
  DebuggerBrowsableAttribute: an attribute that stores one DebuggerBrowsableState,
  checked against the enum's range when the attribute is constructed.
*/
module DebuggerBrowsable {

  /** The underlying type of a C# enum: a 32-bit signed integer, which may hold unnamed values. */
  newtype DebuggerBrowsableState = x: int | -0x8000_0000 <= x < 0x8000_0000

  const Never: DebuggerBrowsableState := 0
  const Collapsed: DebuggerBrowsableState := 2
  const RootHidden: DebuggerBrowsableState := 3

  datatype Exception = ArgumentOutOfRangeException(paramName: string)

  datatype Result<T> = Success(value: T) | Failure(error: Exception)

  /** The attribute has no setter: its state is fixed when it is built. */
  datatype DebuggerBrowsableAttribute = DebuggerBrowsableAttribute(state: DebuggerBrowsableState)
  {
    /** The State getter. */
    function State(): DebuggerBrowsableState
    {
      state
    }
  }

  /**
    The constructor: a state below Never or above RootHidden is refused with an
    ArgumentOutOfRangeException naming the parameter; any other state is stored
    and read back unchanged.
  */
  function New(state: DebuggerBrowsableState): (r: Result<DebuggerBrowsableAttribute>)
    ensures r.Failure? <==> state < Never || RootHidden < state
    ensures r.Failure? ==> r.error == ArgumentOutOfRangeException("state")
    ensures r.Success? ==> r.value.State() == state
  {
    if state < Never || state > RootHidden then
      Failure(ArgumentOutOfRangeException("state"))
    else
      Success(DebuggerBrowsableAttribute(state))
  }

  /** Every attribute that can be built reports a state inside the checked range. */
  lemma {:induction false} BuiltStateInRange(state: DebuggerBrowsableState)
    requires New(state).Success?
    ensures Never <= New(state).value.State() <= RootHidden
  {
    assert New(state).value.State() == state;
  }

  /**
    The range check compares numbers only: the value 1, which names no member of
    the enum, lies between Never and RootHidden and is accepted, while the
    neighbours -1 and 4 are refused.
  */
  lemma RangeCheckIsNumeric()
    ensures New(1).Success? && New(1).value.State() == 1
    ensures New(-1).Failure? && New(4).Failure?
    ensures New(Never).Success? && New(Collapsed).Success? && New(RootHidden).Success?
  {
  }
}
