/** `CollectionOf`: a Laravel collection whose elements all satisfy one element type.

    Its constructor takes zero, one or two arguments: a type (a type name or a closure),
    the initial elements, or both. The type is set at most once, from the explicit type
    or else from the first element, and every initial element is checked against it
    before anything is stored. */
module IlluminateSupport {
  import opened PhpArrays
  import opened ElementTypes
  import opened TypedCollectionTrait

  const ArgumentNullMessage: string := "Argument cannot be NULL"
  const FirstArgumentNullMessage: string := "First argument cannot be NULL"
  const TooManyArgumentsMessage: string := "Too many arguments"

  /** The constructor's arguments once told apart: the explicit type, if any, and the
      initial elements. */
  datatype Resolved = Resolved(typeDef: Option<Value>, elements: Entries)

  /** The `switch` on the argument count. */
  function ResolveArguments(definition: seq<Value>): Result<Resolved>
  {
    if |definition| == 0 then
      Success(Resolved(None, []))
    else if |definition| == 1 then
      var a := definition[0];
      if a.Str? || a.Closure? then Success(Resolved(Some(a), []))
      else if a.Null? then Failure(InvalidArgument(ArgumentNullMessage))
      else Success(Resolved(None, ArrayableItems(a)))
    else if |definition| == 2 then
      if definition[0].Null? then Failure(InvalidArgument(FirstArgumentNullMessage))
      else Success(Resolved(Some(definition[0]), ArrayableItems(definition[1])))
    else
      Failure(InvalidArgument(TooManyArgumentsMessage))
  }

  /** The element type a fresh collection ends up with: the explicit type when there is
      one, otherwise the kind of the first element when there are elements. */
  function InitialType(typeDef: Option<Value>, elements: Entries): Option<Desc>
  {
    var declared := if typeDef.Some? then Some(Declared(typeDef.value)) else None;
    if elements != [] && declared.None? then Some(LikeSample(elements[0].1)) else declared
  }

  /** The observable state of a collection: its element type and its items. */
  datatype State = State(elementType: Option<Desc>, items: Entries)

  /** What `new CollectionOf(...$definition)` produces: a collection or the exception. */
  function Construct(matches: Matcher, definition: seq<Value>): Result<State>
  {
    match ResolveArguments(definition)
    case Failure(e) => Failure(e)
    case Success(r) =>
      var t := InitialType(r.typeDef, r.elements);
      match FirstMismatch(matches, t, r.elements)
      case Some(k) => Failure(TypeMismatchAt(k))
      case None => Success(State(t, r.elements))
  }

  /** `new CollectionOf()`: empty, with the element type unset. */
  lemma ConstructWithoutArguments(matches: Matcher)
    ensures Construct(matches, []) == Success(State(None, []))
  {
  }

  /** `new CollectionOf($type)` with a type name or a closure: empty, typed by it. */
  lemma ConstructWithTypeOnly(matches: Matcher, a: Value)
    requires a.Str? || a.Closure?
    ensures Construct(matches, [a]) == Success(State(Some(Declared(a)), []))
  {
  }

  /** The constructor rejects its arguments exactly for a lone null, a null first
      argument of two, and three or more arguments, each with its own message. */
  lemma InvalidArgumentCases(matches: Matcher, definition: seq<Value>)
    ensures (Construct(matches, definition).Failure? &&
             Construct(matches, definition).error.InvalidArgument?)
            <==> ((|definition| == 1 || |definition| == 2) && definition[0].Null?)
                 || |definition| >= 3
    ensures |definition| == 1 && definition[0].Null? ==>
              Construct(matches, definition) == Failure(InvalidArgument(ArgumentNullMessage))
    ensures |definition| == 2 && definition[0].Null? ==>
              Construct(matches, definition) == Failure(InvalidArgument(FirstArgumentNullMessage))
    ensures |definition| >= 3 ==>
              Construct(matches, definition) == Failure(InvalidArgument(TooManyArgumentsMessage))
  {
  }

  /** How the element type is settled: an explicit type is used as it is and inference
      never runs; with no explicit type the first element's kind is used; with neither,
      the type stays unset. */
  lemma ElementTypeResolution(matches: Matcher, definition: seq<Value>)
    requires Construct(matches, definition).Success?
    ensures var r := ResolveArguments(definition).value;
            var t := Construct(matches, definition).value.elementType;
            && ResolveArguments(definition).Success?
            && (r.typeDef.Some? ==> t == Some(Declared(r.typeDef.value)))
            && (r.typeDef.None? && r.elements != [] ==> t == Some(LikeSample(r.elements[0].1)))
            && (t.None? <==> r.typeDef.None? && r.elements == [])
  {
  }

  /** `new CollectionOf([])`: the element type stays unset. */
  lemma ConstructFromEmptyArray(matches: Matcher)
    ensures Construct(matches, [Arr([])]) == Success(State(None, []))
  {
  }

  /** A successful construction stores exactly the resolved elements (same keys, same
      order) and every one of them satisfies the element type; it succeeds exactly
      when the arguments resolve and every element passes. */
  lemma ConstructedItemsComply(matches: Matcher, definition: seq<Value>)
    ensures Construct(matches, definition).Success? <==>
              && ResolveArguments(definition).Success?
              && var r := ResolveArguments(definition).value;
                 AllMatch(matches, InitialType(r.typeDef, r.elements), r.elements)
    ensures Construct(matches, definition).Success? ==>
              var s := Construct(matches, definition).value;
              && s.items == ResolveArguments(definition).value.elements
              && AllMatch(matches, s.elementType, s.items)
  {
  }

  /** Validation is fail-fast: construction fails with the key `k` exactly when the
      arguments resolve and the element at some position fails the type with every
      element before it passing, and that element's key is `k`. */
  lemma FailFastValidation(matches: Matcher, definition: seq<Value>, k: Key)
    ensures Construct(matches, definition) == Failure(TypeMismatchAt(k)) <==>
              && ResolveArguments(definition).Success?
              && var r := ResolveArguments(definition).value;
                 var t := InitialType(r.typeDef, r.elements);
                 exists i :: 0 <= i < |r.elements| && r.elements[i].0 == k
                             && !matches(t, r.elements[i].1)
                             && forall j :: 0 <= j < i ==> matches(t, r.elements[j].1)
  {
  }

  /** The preset collections (`Integers`, `Strings`, ...) call the constructor with a
      fixed type name and their array: typed by that name, and built exactly when every
      element passes, else rejected at the first failing key. */
  lemma FixedTagConstruction(matches: Matcher, tag: string, elements: Entries)
    ensures var t := Some(Declared(Str(tag)));
            Construct(matches, [Str(tag), Arr(elements)]) ==
              if AllMatch(matches, t, elements) then Success(State(t, elements))
              else Failure(TypeMismatchAt(FirstMismatch(matches, t, elements).value))
  {
  }

  /** The constructor's two guarded setter calls come to attempting the explicit type
      and then the first element's kind on an unset type: the guards skip only attempts
      that the set-once rule would ignore anyway. */
  lemma {:induction false} InitialTypeFromAttempts(typeDef: Option<Value>, elements: Entries)
    ensures InitialType(typeDef, elements) ==
              AfterAttempts(None, (if typeDef.Some? then [Declared(typeDef.value)] else [])
                                  + (if elements != [] then [LikeSample(elements[0].1)] else []))
  {
    var first: seq<Desc> := if typeDef.Some? then [Declared(typeDef.value)] else [];
    var all := first + (if elements != [] then [LikeSample(elements[0].1)] else []);
    assert AfterAttempts(None, first) == InitialType(typeDef, []) by {
      if typeDef.Some? {
        assert AfterAttempts(None, first) == AfterAttempts(Some(Declared(typeDef.value)), []);
      }
    }
    if elements != [] {
      AttemptsStepwise(None, first, LikeSample(elements[0].1));
    } else {
      assert all == first;
    }
  }

  class CollectionOf {
    /** The element-type check of the type package. */
    const matches: Matcher
    /** The element type; `None` while unset. */
    var elementType: Option<Desc>
    /** The collection's items, in order. */
    var items: Entries

    /** The items form a PHP array and every stored element satisfies the element type. */
    ghost predicate Valid()
      reads this
    {
      UniqueKeys(items) && AllMatch(matches, elementType, items)
    }

    /** The object as the constructor body first sees it: no items, type unset. */
    constructor Blank(matches: Matcher)
      ensures this.matches == matches && elementType == None && items == []
      ensures Valid()
    {
      this.matches := matches;
      elementType := None;
      items := [];
    }

    /** `setElementType($type)`: sets the type only while it is unset. The constructor
        calls it before any item is stored, where the invariant holds whatever the type. */
    method SetElementType(definition: Value)
      modifies this`elementType
      ensures elementType == SetIfUnset(old(elementType), Declared(definition))
      ensures items == [] ==> Valid()
    {
      if elementType.None? {
        elementType := Some(Declared(definition));
      }
    }

    /** `setElementTypeLike($sample)`: sets the type to the sample's kind, only while
        the type is unset. */
    method SetElementTypeLike(sample: Value)
      modifies this`elementType
      ensures elementType == SetIfUnset(old(elementType), LikeSample(sample))
      ensures items == [] ==> Valid()
    {
      if elementType.None? {
        elementType := Some(LikeSample(sample));
      }
    }

    /** `new CollectionOf(...$definition)`: the collection, or the exception thrown
        before any item is stored. */
    static method New(matches: Matcher, definition: seq<Value>) returns (r: Result<CollectionOf>)
      requires forall i :: 0 <= i < |definition| ==> WellFormed(definition[i])
      ensures r.Success? ==> fresh(r.value) && r.value.Valid() && r.value.matches == matches
      ensures match Construct(matches, definition)
              case Success(s) =>
                r.Success? && r.value.elementType == s.elementType && r.value.items == s.items
              case Failure(e) => r == Failure(e)
    {
      var c := new CollectionOf.Blank(matches);
      var typeDef: Option<Value>;
      var elements: Entries;
      if |definition| == 0 {
        typeDef, elements := None, [];
      } else if |definition| == 1 {
        if definition[0].Str? || definition[0].Closure? {
          typeDef, elements := Some(definition[0]), [];
        } else if definition[0].Null? {
          return Failure(InvalidArgument(ArgumentNullMessage));
        } else {
          typeDef, elements := None, ArrayableItems(definition[0]);
        }
      } else if |definition| == 2 {
        if definition[0].Null? {
          return Failure(InvalidArgument(FirstArgumentNullMessage));
        }
        typeDef, elements := Some(definition[0]), ArrayableItems(definition[1]);
      } else {
        return Failure(InvalidArgument(TooManyArgumentsMessage));
      }
      assert ResolveArguments(definition) == Success(Resolved(typeDef, elements));

      // the setter calls made so far, as attempts on the set-once type
      ghost var attempts: seq<Desc> := [];
      if typeDef.Some? && c.elementType.None? {
        AttemptsStepwise(None, attempts, Declared(typeDef.value));
        c.SetElementType(typeDef.value);
        attempts := attempts + [Declared(typeDef.value)];
      }
      assert c.elementType == AfterAttempts(None, attempts);
      if elements != [] {
        if c.elementType.None? {
          AttemptsStepwise(None, attempts, LikeSample(elements[0].1));
          c.SetElementTypeLike(elements[0].1);
          attempts := attempts + [LikeSample(elements[0].1)];
        }
        assert c.elementType == AfterAttempts(None, attempts);
        var failed := FirstNonCompliant(c.matches, c.elementType, elements);
        if failed.Some? {
          return Failure(TypeMismatchAt(failed.value));
        }
      }
      assert c.elementType == InitialType(typeDef, elements);
      FirstMismatchSpec(matches, c.elementType, elements);
      if |definition| == 1 {
        ArrayableItemsUnique(definition[0]);
      } else if |definition| == 2 {
        ArrayableItemsUnique(definition[1]);
      }
      c.items := elements;
      return Success(c);
    }

    /** `$collection[$key] = $value`: the value must satisfy the element type before the
        parent's assignment runs; a rejected value leaves the items as they were. The
        element type never changes, and the invariant, when it held, still holds. */
    method OffsetSet(key: Option<Key>, value: Value) returns (thrown: Option<Error>)
      modifies this`items
      ensures old(Valid()) ==> Valid()
      ensures elementType == old(elementType)
      ensures match GuardedSet(matches, elementType, old(items), key, value)
              case Success(e) => thrown == None && items == e
              case Failure(err) => thrown == Some(err) && items == old(items)
    {
      if !matches(elementType, value) {
        return Some(TypeMismatch);
      }
      match SetAt(items, key, value)
      case None =>
        return Some(NextElementOccupied);
      case Some(e) =>
        if Valid() {
          GuardedSetKeepsCompliance(matches, elementType, items, key, value);
        }
        items := e;
        return None;
    }

    /** `pad($size, $value)`: a value that fails the element type is rejected; one that
        passes is handed, with the size, to the parent's `page`. The collection itself
        is not changed either way. */
    method Pad(size: int, value: Value) returns (r: Result<ParentCall>)
      ensures r.Failure? <==> !matches(elementType, value)
      ensures r.Failure? ==> r.error == TypeMismatch
      ensures r.Success? ==> r.value == Page(size, value)
    {
      if !matches(elementType, value) {
        return Failure(TypeMismatch);
      }
      return Success(Page(size, value));
    }
  }
}
