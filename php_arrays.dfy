/** PHP values and ordered arrays as the typed collections see them.

    A PHP array is an ordered list of key/value entries. The collections store their
    items in one, and the host collection's `offsetSet` assigns into it with PHP's
    `$items[$key] = $value` (or `$items[] = $value` for a null key). */
module PhpArrays {

  /** An array key: PHP keeps integer and string keys apart (numeric strings are
      assumed already canonicalised to integers). */
  datatype Key = IntKey(i: int) | StrKey(s: string)

  /** The PHP values a constructor argument or an element can be. An object records
      the entries its array conversion yields (its `toArray`, its iterator or its
      public properties). */
  datatype Value =
    | Null
    | Bool(b: bool)
    | Int(i: int)
    | Str(s: string)
    | Closure(id: nat)
    | Arr(entries: seq<(Key, Value)>)
    | Obj(id: nat, exported: seq<(Key, Value)>)

  type Entries = seq<(Key, Value)>

  datatype Option<T> = None | Some(value: T)

  /** The keys of an array, in iteration order. */
  function Keys(e: Entries): (ks: seq<Key>)
    ensures |ks| == |e|
    ensures forall i :: 0 <= i < |e| ==> ks[i] == e[i].0
  {
    if e == [] then [] else [e[0].0] + Keys(e[1..])
  }

  /** A PHP array never holds the same key twice. */
  predicate UniqueKeys(e: Entries)
  {
    forall i, j :: 0 <= i < j < |e| ==> e[i].0 != e[j].0
  }

  /** `$a[$k] ?? none`: the value stored under key `k`, if any. */
  function Lookup(e: Entries, k: Key): (r: Option<Value>)
    ensures r.None? <==> k !in Keys(e)
  {
    if e == [] then None
    else if e[0].0 == k then Some(e[0].1)
    else Lookup(e[1..], k)
  }

  /** The largest integer (and integer key) of a 64-bit PHP build, `PHP_INT_MAX`. */
  const PhpIntMax: int := 0x7FFF_FFFF_FFFF_FFFF

  /** An array whose integer keys all lie within PHP's integer range. */
  predicate KeysInRange(e: Entries)
  {
    forall i :: 0 <= i < |e| && e[i].0.IntKey? ==> e[i].0.i <= PhpIntMax
  }

  /** The key `$a[] = $v` uses: one more than the largest integer key, and 0 when there
      is no non-negative integer key (rule for arrays that never had an entry removed). */
  function NextFreeKey(e: Entries): (n: nat)
    ensures forall i :: 0 <= i < |e| && e[i].0.IntKey? ==> e[i].0.i < n
    ensures n > 0 ==> exists i :: 0 <= i < |e| && e[i].0 == IntKey(n - 1)
  {
    if e == [] then 0
    else
      var rest := NextFreeKey(e[..|e| - 1]);
      var last := e[|e| - 1].0;
      if last.IntKey? && last.i >= rest then last.i + 1 else rest
  }

  /** `$a[$k] = $v`: overwrite in place when the key is present, append otherwise. */
  function Assign(e: Entries, k: Key, v: Value): (r: Entries)
  {
    if e == [] then [(k, v)]
    else if e[0].0 == k then [(k, v)] + e[1..]
    else [e[0]] + Assign(e[1..], k, v)
  }

  /** The host collection's `offsetSet($key, $value)`: a null key appends at the next
      free integer key, any other key assigns. `None` when the append is refused because
      the next key would pass `PHP_INT_MAX` ("the next element is already occupied"):
      nothing is stored then. */
  function SetAt(e: Entries, key: Option<Key>, v: Value): Option<Entries>
  {
    match key
    case None =>
      if NextFreeKey(e) > PhpIntMax then None else Some(Assign(e, IntKey(NextFreeKey(e)), v))
    case Some(k) => Some(Assign(e, k, v))
  }

  /** After an assignment the key reads back the assigned value, and every other key
      reads what it read before. */
  lemma {:induction false} AssignLookup(e: Entries, k: Key, v: Value, k': Key)
    ensures Lookup(Assign(e, k, v), k') == if k' == k then Some(v) else Lookup(e, k')
  {
    if e != [] && e[0].0 != k {
      AssignLookup(e[1..], k, v, k');
    }
  }

  /** Assigning to a present key keeps the key order; to an absent key, appends it. */
  lemma {:induction false} AssignKeys(e: Entries, k: Key, v: Value)
    ensures Keys(Assign(e, k, v)) == if k in Keys(e) then Keys(e) else Keys(e) + [k]
  {
    if e != [] {
      if e[0].0 != k {
        AssignKeys(e[1..], k, v);
        assert Keys(e) == [e[0].0] + Keys(e[1..]);
        assert k in Keys(e) <==> k in Keys(e[1..]);
      }
    }
  }

  /** An assignment keeps a PHP array's keys distinct. */
  lemma AssignKeepsKeysUnique(e: Entries, k: Key, v: Value)
    requires UniqueKeys(e)
    ensures UniqueKeys(Assign(e, k, v))
  {
    var r := Assign(e, k, v);
    AssignKeys(e, k, v);
    forall i, j | 0 <= i < j < |r| ensures r[i].0 != r[j].0 {
      assert Keys(r)[i] == r[i].0 && Keys(r)[j] == r[j].0;
      if k !in Keys(e) && j == |e| {
        assert Keys(e)[i] == e[i].0;
      } else {
        assert Keys(e)[i] == e[i].0 && Keys(e)[j] == e[j].0;
      }
    }
  }

  /** An assignment stores nothing but the old entries' values and the new value. */
  lemma {:induction false} AssignValues(e: Entries, k: Key, v: Value)
    ensures forall i :: 0 <= i < |Assign(e, k, v)| ==>
              Assign(e, k, v)[i].1 == v || Assign(e, k, v)[i] in e
  {
    if e != [] && e[0].0 != k {
      AssignValues(e[1..], k, v);
      var r := Assign(e, k, v);
      forall i | 0 <= i < |r| ensures r[i].1 == v || r[i] in e {
        if i > 0 {
          assert r[i] == Assign(e[1..], k, v)[i - 1];
        }
      }
    }
  }

  /** A null-key append never lands on an existing key: unless refused, it grows the
      array by one entry at the end. */
  lemma AppendAddsEntry(e: Entries, v: Value)
    ensures IntKey(NextFreeKey(e)) !in Keys(e)
    ensures SetAt(e, None, v) ==
              if NextFreeKey(e) <= PhpIntMax then Some(e + [(IntKey(NextFreeKey(e)), v)])
              else None
  {
    var k := IntKey(NextFreeKey(e));
    AppendAt(e, k, v);
  }

  /** For an array whose keys are PHP integers, a null-key append is refused exactly
      when the key `PHP_INT_MAX` is present. */
  lemma AppendRefusedAtIntMax(e: Entries, v: Value)
    requires KeysInRange(e)
    ensures SetAt(e, None, v).None? <==> IntKey(PhpIntMax) in Keys(e)
  {
  }

  lemma {:induction false} AppendAt(e: Entries, k: Key, v: Value)
    requires forall i :: 0 <= i < |e| ==> e[i].0 != k
    ensures k !in Keys(e)
    ensures Assign(e, k, v) == e + [(k, v)]
  {
    if e != [] {
      AppendAt(e[1..], k, v);
      assert e == [e[0]] + e[1..];
    }
  }

  /** What a PHP value can be: the entries of an array, or of an object's conversion,
      never repeat a key. */
  predicate WellFormed(v: Value)
  {
    && (v.Arr? ==> UniqueKeys(v.entries))
    && (v.Obj? ==> UniqueKeys(v.exported))
  }

  /** The entries `getArrayableItems` gives a well-formed value never repeat a key. */
  lemma ArrayableItemsUnique(v: Value)
    requires WellFormed(v)
    ensures UniqueKeys(ArrayableItems(v))
  {
  }

  /** `getArrayableItems`: an array is taken as it is, null gives no entries, a scalar
      is wrapped at key 0, an object gives the entries its conversion yields and a
      closure (an object with no properties) gives none. */
  function ArrayableItems(v: Value): Entries
  {
    match v
    case Null => []
    case Bool(_) => [(IntKey(0), v)]
    case Int(_) => [(IntKey(0), v)]
    case Str(_) => [(IntKey(0), v)]
    case Closure(_) => []
    case Arr(entries) => entries
    case Obj(_, exported) => exported
  }
}
