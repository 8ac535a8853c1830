/** The element-type descriptor of a typed collection and the check against it.

    How a descriptor accepts a value (the table of type names, JSON validity, callables,
    resources, the call of a closure) belongs to a separate package; here it is an
    arbitrary function `Matcher`, so that everything proved holds for every such table. */
module ElementTypes {
  import opened PhpArrays

  /** A descriptor is either what `setElementType` was given (a type name, a closure, or
      whatever non-null first argument the constructor received) or the kind of the
      sample value `setElementTypeLike` was given. */
  datatype Desc = Declared(definition: Value) | LikeSample(sample: Value)

  /** `isElementType($value)` of a collection whose element type is `t` (`None` while
      the type is unset). */
  type Matcher = (Option<Desc>, Value) -> bool

  /** `setElementType` / `setElementTypeLike`: the first descriptor wins; once the type
      is set, later attempts are ignored. */
  function SetIfUnset(t: Option<Desc>, d: Desc): Option<Desc>
  {
    if t.None? then Some(d) else t
  }

  /** The element type after a series of attempts to set it, in order. */
  function AfterAttempts(t: Option<Desc>, attempts: seq<Desc>): Option<Desc>
    decreases |attempts|
  {
    if attempts == [] then t else AfterAttempts(SetIfUnset(t, attempts[0]), attempts[1..])
  }

  /** The type is set at most once: an unset type ends up as the first attempt, a set
      type never changes, and no attempt unsets it. */
  lemma {:induction false} FirstAttemptWins(t: Option<Desc>, attempts: seq<Desc>)
    ensures t.Some? ==> AfterAttempts(t, attempts) == t
    ensures t.None? && attempts != [] ==> AfterAttempts(t, attempts) == Some(attempts[0])
    ensures AfterAttempts(t, attempts).None? <==> t.None? && attempts == []
    decreases |attempts|
  {
    if attempts != [] {
      FirstAttemptWins(SetIfUnset(t, attempts[0]), attempts[1..]);
    }
  }

  /** One more attempt after a series is the same as extending the series: a run of
      setter calls leaves the type `AfterAttempts` of the attempts made. */
  lemma {:induction false} AttemptsStepwise(t: Option<Desc>, attempts: seq<Desc>, d: Desc)
    ensures AfterAttempts(t, attempts + [d]) == SetIfUnset(AfterAttempts(t, attempts), d)
    decreases |attempts|
  {
    if attempts != [] {
      assert (attempts + [d])[1..] == attempts[1..] + [d];
      AttemptsStepwise(SetIfUnset(t, attempts[0]), attempts[1..], d);
    } else {
      assert [d][1..] == [];
    }
  }

  /** The errors the collections throw. */
  datatype Error =
    | InvalidArgument(message: string)    // \InvalidArgumentException
    | TypeMismatchAt(position: Key)       // \TypeError naming the element's key
    | TypeMismatch                        // \TypeError of a single-value guard
    | NextElementOccupied                 // `$a[] = $v` refused at PHP_INT_MAX

  datatype Result<T> = Success(value: T) | Failure(error: Error)

  /** Every element of `e` satisfies the element type `t`. */
  predicate AllMatch(matches: Matcher, t: Option<Desc>, e: Entries)
  {
    forall i :: 0 <= i < |e| ==> matches(t, e[i].1)
  }

  /** The position of the first element, in iteration order, that fails `t`, or `|e|`
      when there is none. */
  function FirstFailure(matches: Matcher, t: Option<Desc>, e: Entries): (n: nat)
    ensures n <= |e|
    ensures forall j :: 0 <= j < n ==> matches(t, e[j].1)
    ensures n < |e| ==> !matches(t, e[n].1)
  {
    if e == [] then 0
    else if !matches(t, e[0].1) then 0
    else 1 + FirstFailure(matches, t, e[1..])
  }

  /** The key of the first failing element, as the fail-fast validation reports it. */
  function FirstMismatch(matches: Matcher, t: Option<Desc>, e: Entries): Option<Key>
  {
    var n := FirstFailure(matches, t, e);
    if n == |e| then None else Some(e[n].0)
  }

  /** `FirstMismatch` reports nothing exactly when every element passes, and otherwise
      the key of an element that fails and has only passing elements before it. */
  lemma FirstMismatchSpec(matches: Matcher, t: Option<Desc>, e: Entries)
    ensures FirstMismatch(matches, t, e).None? <==> AllMatch(matches, t, e)
    ensures FirstMismatch(matches, t, e).Some? ==>
              exists i :: 0 <= i < |e| && e[i].0 == FirstMismatch(matches, t, e).value
                          && !matches(t, e[i].1) && forall j :: 0 <= j < i ==> matches(t, e[j].1)
  {
  }

  /** The first failure is the only position that fails with all before it passing. */
  lemma FirstFailureUnique(matches: Matcher, t: Option<Desc>, e: Entries, i: nat)
    requires i < |e| && !matches(t, e[i].1)
    requires forall j :: 0 <= j < i ==> matches(t, e[j].1)
    ensures FirstFailure(matches, t, e) == i
  {
  }

  /** The validation loop of the constructor: check every element in insertion order
      and stop at the first one that fails, reporting its key. */
  method FirstNonCompliant(matches: Matcher, t: Option<Desc>, elements: Entries)
    returns (failed: Option<Key>)
    ensures failed.None? <==> AllMatch(matches, t, elements)
    ensures failed.Some? ==>
              exists i :: 0 <= i < |elements| && elements[i].0 == failed.value
                          && !matches(t, elements[i].1)
                          && forall j :: 0 <= j < i ==> matches(t, elements[j].1)
    ensures failed == FirstMismatch(matches, t, elements)
  {
    var i := 0;
    while i < |elements|
      invariant 0 <= i <= |elements|
      invariant forall j :: 0 <= j < i ==> matches(t, elements[j].1)
    {
      if !matches(t, elements[i].1) {
        FirstFailureUnique(matches, t, elements, i);
        return Some(elements[i].0);
      }
      i := i + 1;
    }
    FirstMismatchSpec(matches, t, elements);
    return None;
  }
}
