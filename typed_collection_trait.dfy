/** The mutation guards the trait adds to a Laravel collection: `offsetSet` and `pad`
    reject a value that fails the element type before they reach the parent class. */
module TypedCollectionTrait {
  import opened PhpArrays
  import opened ElementTypes

  /** What a guarded `offsetSet($key, $value)` leaves in the items: the parent's
      assignment when the value passes, a type error (and the old items) otherwise. */
  function GuardedSet(matches: Matcher, t: Option<Desc>, items: Entries, key: Option<Key>, v: Value)
    : Result<Entries>
  {
    if !matches(t, v) then Failure(TypeMismatch)
    else match SetAt(items, key, v)
         case None => Failure(NextElementOccupied)
         case Some(e) => Success(e)
  }

  /** The guard comes first: a failing value is a type error whatever the key. A passing
      value reaches the parent, which refuses only a null-key append past `PHP_INT_MAX`;
      after an accepted set the written key reads the value and every other key reads
      what it read before. */
  lemma GuardedSetEffect(matches: Matcher, t: Option<Desc>, items: Entries, key: Option<Key>,
                         v: Value, k: Key)
    ensures !matches(t, v) ==> GuardedSet(matches, t, items, key, v) == Failure(TypeMismatch)
    ensures matches(t, v) ==>
              (GuardedSet(matches, t, items, key, v).Failure? <==>
                 key.None? && NextFreeKey(items) > PhpIntMax)
    ensures matches(t, v) && GuardedSet(matches, t, items, key, v).Failure? ==>
              GuardedSet(matches, t, items, key, v).error == NextElementOccupied
    ensures GuardedSet(matches, t, items, key, v).Success? ==>
              var written := if key.Some? then key.value else IntKey(NextFreeKey(items));
              Lookup(GuardedSet(matches, t, items, key, v).value, k)
                == if k == written then Some(v) else Lookup(items, k)
  {
    var written := if key.Some? then key.value else IntKey(NextFreeKey(items));
    AssignLookup(items, written, v, k);
  }

  /** An accepted set keeps "every element satisfies the element type" and keeps the
      keys distinct. */
  lemma GuardedSetKeepsCompliance(matches: Matcher, t: Option<Desc>, items: Entries,
                                  key: Option<Key>, v: Value)
    requires AllMatch(matches, t, items)
    requires GuardedSet(matches, t, items, key, v).Success?
    ensures AllMatch(matches, t, GuardedSet(matches, t, items, key, v).value)
    ensures UniqueKeys(items) ==> UniqueKeys(GuardedSet(matches, t, items, key, v).value)
  {
    var written := if key.Some? then key.value else IntKey(NextFreeKey(items));
    AssignValues(items, written, v);
    if UniqueKeys(items) {
      AssignKeepsKeysUnique(items, written, v);
    }
    var r := GuardedSet(matches, t, items, key, v).value;
    forall i | 0 <= i < |r| ensures matches(t, r[i].1) {
      if r[i].1 != v {
        var j :| 0 <= j < |items| && items[j] == r[i];
      }
    }
  }

  /** A caller's sequence of `$collection[$key] = $value` statements, each rejected
      one caught: accepted sets apply in order, rejected ones change nothing. */
  function ApplySets(matches: Matcher, t: Option<Desc>, items: Entries,
                     sets: seq<(Option<Key>, Value)>): Entries
    decreases |sets|
  {
    if sets == [] then items
    else
      var next := match GuardedSet(matches, t, items, sets[0].0, sets[0].1)
                  case Success(e) => e
                  case Failure(_) => items;
      ApplySets(matches, t, next, sets[1..])
  }

  /** Starting from compliant items (which the constructor guarantees), any sequence of
      guarded sets leaves every element satisfying the element type. */
  lemma {:induction false} SetsKeepCompliance(matches: Matcher, t: Option<Desc>, items: Entries,
                                              sets: seq<(Option<Key>, Value)>)
    requires AllMatch(matches, t, items)
    ensures AllMatch(matches, t, ApplySets(matches, t, items, sets))
    decreases |sets|
  {
    if sets != [] {
      var g := GuardedSet(matches, t, items, sets[0].0, sets[0].1);
      if g.Success? {
        GuardedSetKeepsCompliance(matches, t, items, sets[0].0, sets[0].1);
        SetsKeepCompliance(matches, t, g.value, sets[1..]);
      } else {
        SetsKeepCompliance(matches, t, items, sets[1..]);
      }
    }
  }

  /** The call `pad` hands to its parent once the value has passed the guard:
      `parent::page($size, $value)`, with the arguments it received. */
  datatype ParentCall = Page(size: int, value: Value)
}
