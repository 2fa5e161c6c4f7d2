/**
 The small part of Java's run-time semantics the file manager depends on:
 how a call ends (it returns a value or throws), nullable references, and
 the iteration order of a hash set or hash map key set.
 */
module JavaLang {

  /** The throwables the model distinguishes. Which `catch` clause stops
      which of them is exactly what the service's failure handling is about. */
  datatype Throwable =
    | IOException                    // checked I/O failure (java.io.IOException and its subclasses)
    | UnsupportedOperationException  // thrown by the batch copy's input check
    | CompletionException            // thrown by `join` when a joined future completed exceptionally
    | OtherException                 // any other Exception, checked or unchecked (SecurityException, ...)
    | Error                          // java.lang.Error: not an Exception, so `catch (Exception e)` misses it

  /** True when `catch (Exception e)` stops `t`. */
  predicate IsException(t: Throwable)
  {
    !t.Error?
  }

  /** How one Java call ends. */
  datatype Outcome<+T> = Returned(value: T) | Threw(thrown: Throwable)

  /** A Java reference that may be null. */
  datatype Option<+T> = None | Some(value: T)

  /** No element occurs twice. */
  ghost predicate NoDuplicates<T>(xs: seq<T>)
  {
    forall i, j :: 0 <= i < j < |xs| ==> xs[i] != xs[j]
  }

  /** `xs` visits every element of `s` exactly once. */
  ghost predicate IsEnumeration<T(!new)>(xs: seq<T>, s: set<T>)
  {
    && |xs| == |s|
    && NoDuplicates(xs)
    && (forall x :: x in xs <==> x in s)
  }

  /** The order in which `forEach` or `stream()` visits a HashSet (or a
      HashMap's key set). Java fixes it by hashing; the model only relies on
      it being some duplicate-free enumeration of the set. */
  ghost function Enumerate<T(!new)>(s: set<T>): (xs: seq<T>)
    ensures IsEnumeration(xs, s)
    decreases s
  {
    if s == {} then []
    else
      var x :| x in s;
      [x] + Enumerate(s - {x})
  }
}
