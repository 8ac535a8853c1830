# Typed Laravel collections — a Dafny model

This project models the guard layer of `CollectionOf`, a Laravel collection whose
elements must all satisfy one element type. The element type is either a type name, a
closure, or the kind of the first element.

The model covers three parts:

- the constructor `new CollectionOf(...$definition)`. It dispatches on the argument count
  and rejects a null type and too many arguments. It sets the element type at most once,
  from the explicit type or else from the first element. It then checks every initial
  element in insertion order and stops at the first failure, before anything is stored;
- the two mutation guards of the trait: `offsetSet($key, $value)` and `pad($size, $value)`.
  Both reject a value that fails the element type before they reach the parent class;
- the invariant the guards keep: every stored element satisfies the element type.

Files:

- `php_arrays.dfy` (module `PhpArrays`): PHP values, keys and ordered arrays. It also
  holds the parent collection's `offsetSet`, modelled as PHP array assignment: a present
  key is overwritten in place, an absent one is appended, and a null key appends at the
  next free integer key.
- `element_types.dfy` (module `ElementTypes`): the element-type descriptor, the set-once
  rule, the exception kinds, and the fail-fast validation loop.
- `typed_collection_trait.dfy` (module `TypedCollectionTrait`): the `offsetSet` guard as
  a function on items, and the invariant over any sequence of guarded sets.
- `collection_of.dfy` (module `IlluminateSupport`): the constructor as a specification
  function `Construct` with its lemmas, and the class `CollectionOf` whose methods change
  the state in place (`New`, `OffsetSet`, `Pad`).

The type-matching table (`isElementType`, `setElementType`, `setElementTypeLike`) comes
from a separate package that is not part of this model. Its check is the parameter
`matches: (Option<Desc>, Value) -> bool`, and every result holds for every such check.
A descriptor is `Declared(v)` for what `setElementType` received, or `LikeSample(v)` for
the sample `setElementTypeLike` received. Deciding the sample's kind is left to `matches`.

The constructor's `\TypeError` message speaks of a "position", but the `$i` it prints
is the element's array key (the key of the `foreach`), not a 0-based index. The model
reports the key.

The class invariant `Valid()` says that the items form a PHP array (no key twice) and
that every item satisfies the element type. `New` establishes it, and `OffsetSet`
keeps it whenever it held before the call. `OffsetSet` can be called in any state, as
the PHP method can.

## Model

| member | source | states |
|---|---|---|
| `IlluminateSupport.CollectionOf.New` | src/Illuminate/Support/CollectionOf.php:48-91 | The constructor method returns exactly what `Construct` specifies: the same exception, or a fresh collection with that element type and those items. Every item it stores satisfies the element type. |
| `IlluminateSupport.ConstructWithoutArguments` | src/Illuminate/Support/CollectionOf.php:51-54 | With no arguments the collection is empty and its element type is unset. |
| `IlluminateSupport.ConstructWithTypeOnly` | src/Illuminate/Support/CollectionOf.php:56-58 | One string or closure argument gives an empty collection typed by that argument. |
| `IlluminateSupport.InvalidArgumentCases` | src/Illuminate/Support/CollectionOf.php:59-74 | Construction fails with InvalidArgument exactly for a lone null, a null first argument of two, or three or more arguments. Each case carries its own message. |
| `IlluminateSupport.ConstructFromEmptyArray` | src/Illuminate/Support/CollectionOf.php:61-63 | One empty-array argument gives an empty collection whose type stays unset. |
| `IlluminateSupport.ElementTypeResolution` | src/Illuminate/Support/CollectionOf.php:76-83 | An explicit type becomes the element type and inference never runs. With no type and some elements, the first element's kind is used. The type stays unset exactly when there is neither. |
| `IlluminateSupport.ConstructedItemsComply` | src/Illuminate/Support/CollectionOf.php:84-90 | Construction succeeds exactly when the arguments resolve and every element passes. The stored items are then the resolved elements (same keys, same order), and each satisfies the element type. |
| `IlluminateSupport.FailFastValidation` | src/Illuminate/Support/CollectionOf.php:84-86 | Construction fails with the key `k` exactly when the element with key `k` fails the type and every element before it passes. |
| `IlluminateSupport.FixedTagConstruction` | src/Illuminate/Support/Integers.php:18-21 | A preset collection (a fixed type name plus an array) is typed by that name. It is built exactly when every element passes, and otherwise rejected at the first failing key. |
| `IlluminateSupport.CollectionOf.SetElementType` | src/Illuminate/Support/CollectionOf.php:76-78 | Setting the type from the explicit type takes effect only while the type is unset. On a collection with no items the invariant holds afterwards. |
| `IlluminateSupport.CollectionOf.SetElementTypeLike` | src/Illuminate/Support/CollectionOf.php:79-83 | Setting the type from the first element's kind takes effect only while the type is unset. On a collection with no items the invariant holds afterwards. |
| `ElementTypes.FirstAttemptWins` | src/Illuminate/Support/CollectionOf.php:76-83 | The type is set at most once. An unset type becomes the first attempt, a set type never changes, and nothing unsets it. |
| `ElementTypes.AttemptsStepwise` | src/Illuminate/Support/CollectionOf.php:76-83 | One more setter call after a series of attempts gives the type of the longer series. So a run of setter calls leaves the type `AfterAttempts` of the calls made, which `New` tracks. |
| `IlluminateSupport.InitialTypeFromAttempts` | src/Illuminate/Support/CollectionOf.php:76-83 | The constructor's type equals attempting the explicit type and then the first element's kind on an unset type. The guards only skip attempts the set-once rule would ignore. |
| `ElementTypes.FirstNonCompliant` | src/Illuminate/Support/CollectionOf.php:84-88 | The validation loop reports nothing exactly when every element passes. Otherwise it reports the key of the first failing element in iteration order. |
| `ElementTypes.FirstFailure` | src/Illuminate/Support/CollectionOf.php:84-88 | The first failing position: every element before it passes, and the element at it fails unless it is the end. |
| `ElementTypes.FirstMismatchSpec` | src/Illuminate/Support/CollectionOf.php:84-86 | The reported key is absent exactly when all elements pass. Otherwise it is the key of a failing element preceded only by passing ones. |
| `ElementTypes.FirstFailureUnique` | src/Illuminate/Support/CollectionOf.php:84-86 | A failing position with only passing elements before it is the first failure. |
| `IlluminateSupport.CollectionOf.OffsetSet` | src/Illuminate/Support/TypedCollectionTrait.php:22-28 | A value that fails the type raises TypeMismatch and leaves the items unchanged. A passing value reaches the parent assignment with the same key and value; a refused append (past `PHP_INT_MAX`) leaves the items unchanged too. The element type never changes, and the invariant is kept whenever it held before. |
| `IlluminateSupport.CollectionOf.Pad` | src/Illuminate/Support/TypedCollectionTrait.php:37-43 | A value that fails the type raises TypeMismatch. A passing value is handed, with the same size, to the parent's `page`. The collection and its type are not changed. |
| `TypedCollectionTrait.GuardedSetEffect` | src/Illuminate/Support/TypedCollectionTrait.php:22-28 | The guard comes first: a failing value gives TypeMismatch whatever the key. A passing value fails only on a null-key append past `PHP_INT_MAX`. After an accepted set the written key reads the new value and every other key reads its old value. |
| `TypedCollectionTrait.GuardedSetKeepsCompliance` | src/Illuminate/Support/TypedCollectionTrait.php:24-27 | An accepted set keeps every element satisfying the element type, and keeps the keys distinct. |
| `TypedCollectionTrait.SetsKeepCompliance` | src/Illuminate/Support/TypedCollectionTrait.php:22-28 | Starting from compliant items, any sequence of guarded sets (rejected ones caught) keeps every element satisfying the type. |
| `PhpArrays.AssignLookup` | src/Illuminate/Support/TypedCollectionTrait.php:27 | After the parent assignment the key reads the assigned value, and other keys are unaffected. |
| `PhpArrays.AssignKeys` | src/Illuminate/Support/TypedCollectionTrait.php:27 | Assigning to a present key keeps the key order; assigning to an absent key appends it at the end. |
| `PhpArrays.AssignKeepsKeysUnique` | src/Illuminate/Support/TypedCollectionTrait.php:27 | The parent assignment keeps the array's keys distinct. |
| `PhpArrays.AssignValues` | src/Illuminate/Support/TypedCollectionTrait.php:27 | The parent assignment stores only old entries and the new value. |
| `PhpArrays.NextFreeKey` | src/Illuminate/Support/TypedCollectionTrait.php:27 | The key a null-key append uses is above every integer key present. It is 0, or one more than an integer key present, so it is exactly the largest integer key + 1 (or 0). |
| `PhpArrays.AppendAddsEntry` | src/Illuminate/Support/TypedCollectionTrait.php:27 | A null-key append never overwrites. It appends one entry at the end, unless the next key would pass `PHP_INT_MAX`, in which case it is refused and nothing is stored. |
| `PhpArrays.AppendRefusedAtIntMax` | src/Illuminate/Support/TypedCollectionTrait.php:27 | For an array whose integer keys are PHP integers, a null-key append is refused exactly when the key `PHP_INT_MAX` is present. |

## Left out

- The ten preset subclasses (`Integers`, `Strings`, ...) add only a literal type name. `FixedTagConstruction` covers them as fixed-tag constructor calls.
- How a descriptor accepts a value (type names, JSON validity, callables, resources, calling a closure) and how a sample's kind is found: these belong to the foreign type package. Here they are the abstract `matches`. That includes what `isElementType` says while the type is unset.
- `setElementType` and `setElementTypeLike` throwing (the `\AssertionError` / `\Exception` the constructor documents) is not modelled: that is foreign code. Any non-null first argument is stored as `Declared`, and any first element's kind as `LikeSample`.
- Calling `setElementType` on a collection that already holds items (possible through the foreign trait's public API) does not re-check those items; the model states the invariant after a setter only for an empty collection, which is where the constructor calls them.
- IlluminateSupport.CollectionOf.New: requires every argument to be a well-formed PHP value (an array or an object's conversion never repeats a key). A PHP program cannot build anything else; the value datatype can.
- `getArrayableItems` is not modelled in full. `ArrayableItems` takes an array as it is and gives no entries for null. It wraps a boolean, integer or string at key 0, gives an object the entries its conversion yields, and gives a closure none.
- Floating-point values and resources are not among the modelled values.
- PHP's conversion of numeric-string keys to integer keys is not modelled: keys are taken as already canonical.
- The next free key after entries were removed from an array: the model uses the largest integer key present, not the array's remembered counter.
- PhpArrays.NextFreeKey: integer keys and values are unbounded integers. Keys outside PHP's 64-bit range are not excluded by the datatype; `AppendRefusedAtIntMax` states the refusal for arrays whose keys lie in that range.
- PhpArrays.AppendAddsEntry: a refused append is reported as the error `NextElementOccupied`, as PHP 8 throws `Error`. PHP 7 only emits a warning and returns normally; in both versions nothing is stored.
- IlluminateSupport.CollectionOf.Pad: the success path delegates to `parent::page`, which the shown code does not define, so its result is given as the recorded call `Page(size, value)` rather than a padded collection.
- `make` forwards its arguments to the constructor by reflection. It has no contract of its own and is not modelled.
- The exception messages of the `\TypeError`s are not modelled. The constructor's error keeps the failing key; the guards' error is `TypeMismatch`.
- The rest of the inherited Laravel collection API is not part of this model.
