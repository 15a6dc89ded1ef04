/** The few Python notions the gorilla core relies on: dynamically typed
    values, classes with their ancestry, and the exceptions the core raises. */
module Python {

  datatype Option<+T> = None | Some(value: T)

  /** A call that returns a value or raises one of the core's exceptions. */
  datatype Result<+T> = Success(value: T) | Failure(error: Error)

  /** A call whose only result is that it returned, or that it raised. */
  datatype Outcome = Pass | Fail(error: Error)

  /** The exceptions raised by the modelled code; a KeyError carries the
      offending key. */
  datatype Error =
    | TypeError
    | KeyError(key: string)
    | ValueError
    | AssertionError
    | ZeroDivisionError
    | RuntimeError

  /** A Python class: its `__name__`, an identity, and the identities of all
      of its ancestors (the classes other than itself in its MRO). */
  datatype Class = Class(name: string, uid: nat, ancestors: set<nat>)

  /** The identity of `object`, the root every class derives from. */
  const ObjectUid: nat := 0

  /** `issubclass(c, base)`. */
  predicate IsSubclass(c: Class, base: Class) {
    base.uid == ObjectUid || c.uid == base.uid || base.uid in c.ancestors
  }

  /** A Python value as far as the core distinguishes values: `None`,
      booleans, integers, strings, classes, and anything else. */
  datatype Value =
    | NoneValue
    | BoolValue(b: bool)
    | IntValue(i: int)
    | StrValue(s: string)
    | ClassValue(cls: Class)
    | OtherValue(repr: string)

  /** `key.startswith("_")`. */
  predicate StartsWithUnderscore(key: string) {
    |key| > 0 && key[0] == '_'
  }
}
