/** What both halves of the RCU demo (rcu_demo.c) share. */
module Rcu {
  import opened Bytes

  type Ptr = nat
  type Rid = nat

  /** The data of struct foo. */
  datatype Foo = Foo(a: int, b: int, c: int)

  const ZEROED := Foo(0, 0, 0)

  datatype Field = FieldA | FieldB | FieldC

  /** The fields of one object that a reader has loaded so far for its print, in any order. */
  datatype Loaded = Loaded(a: Option<int>, b: Option<int>, c: Option<int>) {
    function With(foo: Foo, field: Field): Loaded {
      match field
      case FieldA => this.(a := Some(foo.a))
      case FieldB => this.(b := Some(foo.b))
      case FieldC => this.(c := Some(foo.c))
    }

    predicate Complete() {
      a.Some? && b.Some? && c.Some?
    }

    function Print(): Foo
      requires Complete()
    {
      Foo(a.value, b.value, c.value)
    }

    predicate Agrees(foo: Foo) {
      (a.Some? ==> a.value == foo.a) && (b.Some? ==> b.value == foo.b) && (c.Some? ==> c.value == foo.c)
    }
  }

  const NOTHING := Loaded(None, None, None)

  /** Blocked steps cannot be taken now.  Fault is an access to memory that is not allocated. */
  datatype Outcome<+S> = Blocked | Fault | Next(s: S)
}
