/** `FixedFunction`, the inline type-erased callable used as the pool's task
    unit, seen through its observable behaviour: a wrapper is empty or holds
    exactly one object; moving a wrapper hands that object on and empties the
    source; calling a wrapper calls what it holds. The byte buffer, the three
    function pointers and the compile-time size check are not modelled. */
module FixedFunction {

  datatype Wrapper<T> = Empty | Holds(obj: T)

  /** Where an object stands after a wrapper move: the destination's new
      content and what is left in the source. */
  datatype Moved<T> = Moved(dst: Wrapper<T>, src: Wrapper<T>)

  /** The transfer at the heart of move-construction and move-assignment. */
  function Relocate<T>(src: Wrapper<T>): (m: Moved<T>)
    ensures m.src == Empty
    ensures m.dst.Holds? <==> src.Holds?
    ensures src.Holds? ==> m.dst.obj == src.obj
  {
    Moved(src, Empty)
  }

  /** Invoking a wrapper; invoking an empty one is a caller defect. */
  function Call<A, R>(w: Wrapper<A -> R>, x: A): (r: R)
    requires w.Holds?
  {
    w.obj(x)
  }

  /** Wrapping a callable and invoking the wrapper is calling it directly. */
  lemma WrappedCallAgrees<A, R>(f: A -> R, x: A)
    ensures Call(Holds(f), x) == f(x)
  {
  }

  /** A member function bound to its receiver, as `std::bind(&C::m, &obj, _1)` makes. */
  function Bind<S, A, R>(receiver: S, member: (S, A) -> R): (g: A -> R)
  {
    x => member(receiver, x)
  }

  /** Wrapping a bound member and invoking the wrapper is calling the member
      on its receiver. */
  lemma BoundCallAgrees<S, A, R>(receiver: S, member: (S, A) -> R, x: A)
    ensures Call(Holds(Bind(receiver, member)), x) == member(receiver, x)
  {
  }

  /** The free functions and members the invocation tests wrap. A function
      that writes through a reference argument returns the written value. */
  function Identity<T>(p: T): (r: T) { p }
  function AssignTo(target: int, v: int): (written: int) { v }
  function SetTo43(receiver: (), target: int): (written: int) { 43 }
  function AddPayload(payload: int, p: int): (r: int) { p + payload }

  /** The invocation tests' examples, checked on the model: each wrapped call
      returns the value the test asserts, and a wrapped assignment through a
      reference is visible. */
  lemma InvocationCases()
    ensures Call(Holds(Identity<int>), 3) == 3
    ensures Call(Holds(Identity<string>), "abc") == "abc"
    ensures Call(Holds((a: (int, int)) => AssignTo(a.0, a.1)), (0, 42)) == 42
    ensures Call(Holds(Bind((), SetTo43)), 0) == 43
    ensures Call(Holds(Bind((), (r: (), p: int) => Identity(p))), 4) == 4
    ensures Call(Holds(Bind(1, AddPayload)), 1) == 2
    ensures Call(Holds((u: ()) => "s1"), ()) == "s1"
  {
    BoundCallAgrees((), SetTo43, 0);
    BoundCallAgrees(1, AddPayload, 1);
  }
}
