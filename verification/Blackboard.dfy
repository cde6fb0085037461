/**
  Blackboards: scoped stores whose keys may be remapped to keys of the parent.  Operations are
  atomic, parents stay alive, and remapping is set up before a key is used.  Types are
  identifiers and conversions between values are parameters.
*/
module Blackboard {
  import opened Wrappers

  datatype PortType = AnyTypeAllowed | Typed(id: nat)

  predicate StronglyTyped(t: PortType) {
    t != AnyTypeAllowed
  }

  /** The test of `createEntryImpl`: a port of type `t` may not refer to an entry so declared. */
  predicate Clash(declared: PortType, t: PortType) {
    declared != t && StronglyTyped(declared) && StronglyTyped(t)
  }

  /** A value with the type it was made from. */
  datatype Value = Value(id: nat, data: int)

  /** The argument of `set<T>`: its static type, its value, what the declared type's parser makes of
      it when it is a string, and whether it is a number that safely casts to the declared type. */
  datatype Argument = Argument(id: nat, value: Value, parsed: Option<Value>, castsSafely: bool)

  /** The place takes the value as it is: it is empty, or holds one of the same type. */
  predicate TakesAsIs(place: Option<Value>, v: Value) {
    place == None || place.value.id == v.id
  }

  /** What `set` does to an entry that had type `t` and value `v`, case by case; `here` says whether the
      key is stored on the board itself, or else the entry was found further up. */
  ghost predicate Effect(here: bool, t: PortType, v: Option<Value>, arg: Argument,
                         convert: (Value, nat) -> Option<int>, written: bool, t': PortType, v': Option<Value>)
  {
    // whatever is refused is as it was, and a declared type stays
    && (!written ==> t' == t && v' == v)
    && (StronglyTyped(t) ==> t' == t)
    // found further up: refused if declared otherwise, else written over
    && (!here ==> (written <==> t == AnyTypeAllowed || t == Typed(arg.value.id)))
    && (!here && written ==> t' == t && v' == Some(arg.value))
    // untyped
    && (here && t == AnyTypeAllowed ==> written && t' == Typed(arg.value.id) && v' == Some(arg.value))
    // the same type
    && (here && (t == Typed(arg.id) || t == Typed(arg.value.id)) ==>
          && (TakesAsIs(v, arg.value) ==> written && v' == Some(arg.value))
          && (!TakesAsIs(v, arg.value) ==> Converts(v.value.id, arg.value, convert, written, v')))
    // another type, and a string that the parser of the declared type reads
    && (here && StronglyTyped(t) && t != Typed(arg.id) && t != Typed(arg.value.id) && arg.parsed.Some? ==>
          && (TakesAsIs(v, arg.parsed.value) ==> written && v' == arg.parsed)
          && (!TakesAsIs(v, arg.parsed.value) ==> Converts(v.value.id, arg.parsed.value, convert, written, v')))
    // another type, and a number that casts safely
    && (here && StronglyTyped(t) && t != Typed(arg.id) && t != Typed(arg.value.id) && arg.parsed == None ==>
          && (!arg.castsSafely ==> !written)
          && (arg.castsSafely && TakesAsIs(v, arg.value) ==> written && v' == Some(arg.value))
          && (arg.castsSafely && !TakesAsIs(v, arg.value) ==> Converts(v.value.id, arg.value, convert, written, v')))
  }

  /** The value that is there keeps its type `id` and gets the converted data, or the conversion fails. */
  ghost predicate Converts(id: nat, v: Value, convert: (Value, nat) -> Option<int>, written: bool,
                           v': Option<Value>)
  {
    (written <==> convert(v, id).Some?) && (written ==> v' == Some(Value(id, convert(v, id).value)))
  }

  /** The cases leave no choice. */
  lemma EffectDecides(here: bool, t: PortType, v: Option<Value>, arg: Argument, convert: (Value, nat) -> Option<int>,
                      w1: bool, t1: PortType, v1: Option<Value>, w2: bool, t2: PortType, v2: Option<Value>)
    requires Effect(here, t, v, arg, convert, w1, t1, v1) && Effect(here, t, v, arg, convert, w2, t2, v2)
    ensures w1 == w2 && t1 == t2 && v1 == v2
  {
  }

  lemma EffectAbove(t: PortType, v: Option<Value>, arg: Argument, convert: (Value, nat) -> Option<int>)
    ensures Effect(false, t, v, arg, convert, !Clash(t, Typed(arg.value.id)), t,
                   if Clash(t, Typed(arg.value.id)) then v else Some(arg.value))
  {
  }

  class Entry {
    var portType: PortType
    var value: Option<Value>

    constructor (t: PortType)
      ensures portType == t && value == None
    {
      portType, value := t, None;
    }

    /** The branch of `set` for a key that is stored locally. */
    method Accept(arg: Argument, convert: (Value, nat) -> Option<int>) returns (ok: bool)
      modifies this
      ensures Effect(true, old(portType), old(value), arg, convert, ok, portType, value)
      ensures !ok ==> unchanged(this)
    {
      if portType == AnyTypeAllowed {
        portType, value := Typed(arg.value.id), Some(arg.value);
        return true;
      }
      var v := arg.value;
      if portType.id != arg.id && portType.id != v.id {
        var mismatching := true;
        if arg.parsed.Some? {
          mismatching, v := false, arg.parsed.value;
        }
        if mismatching && arg.castsSafely {
          mismatching := false;
        }
        if mismatching {
          return false;
        }
      }
      ok := CopyInto(v, convert);
    }

    /** `Any::copyInto`; what is not empty keeps its type. */
    method CopyInto(v: Value, convert: (Value, nat) -> Option<int>) returns (ok: bool)
      modifies `value
      ensures TakesAsIs(old(value), v) ==> ok && value == Some(v)
      ensures !TakesAsIs(old(value), v) ==> Converts(old(value).value.id, v, convert, ok, value)
      ensures !ok ==> value == old(value)
    {
      if value == None || value.value.id == v.id {
        value := Some(v);
        return true;
      }
      var data := convert(v, value.value.id);
      if data == None {
        return false;
      }
      value := Some(Value(value.value.id, data.value));
      return true;
    }
  }

  /** The fields of one board. */
  datatype Fields = Fields(storage: map<string, Entry>, remapping: map<string, string>, autoRemapping: bool)

  /** The fields of all boards under consideration. */
  type World = map<Board, Fields>

  // ----- lookups in a world -----

  /** Parents are in the world too, and were there before their children. */
  ghost predicate Closed(boards: set<Board>) {
    forall b :: b in boards && b.parent != null ==> b.parent in boards && b.parent.level < b.level
  }

  /** The key of the parent that `key` of `b` stands for, if any. */
  ghost function Target(w: World, b: Board, key: string): Option<string>
    requires b in w
  {
    if b.parent == null then None
    else if key in w[b].remapping then Some(w[b].remapping[key])
    else if w[b].autoRemapping then Some(key)
    else None
  }

  /** The entry a key stands for: the first that is stored under it or under the keys it is remapped
      to, up the chain of parents. */
  ghost function Resolve(w: World, b: Board, key: string): Entry?
    requires Closed(w.Keys) && b in w
    decreases b.level
  {
    if key in w[b].storage then w[b].storage[key]
    else
      var target := Target(w, b, key);
      if target.Some? then Resolve(w, b.parent, target.value) else null
  }

  ghost function Store(w: World, b: Board, key: string, e: Entry): World
    requires b in w
  {
    w[b := w[b].(storage := w[b].storage[key := e])]
  }

  /** The form of `getEntry` that is not `const`: every board on the way keeps what the parent found. */
  ghost function Cached(w: World, b: Board, key: string): (w': World)
    requires Closed(w.Keys) && b in w
    ensures w'.Keys == w.Keys
    decreases b.level
  {
    if key in w[b].storage then w
    else
      var target := Target(w, b, key);
      if target.None? then w
      else
        var w' := Cached(w, b.parent, target.value);
        var e := Resolve(w, b.parent, target.value);
        if e == null then w' else Store(w', b, key, e)
  }

  /** The `const` form: it does not store on its own board, but a parent is no `const` object to it,
      so that from there on it caches as the other form does. */
  ghost function Looked(w: World, b: Board, key: string): (w': World)
    requires Closed(w.Keys) && b in w
    ensures w'.Keys == w.Keys
  {
    var target := Target(w, b, key);
    if key in w[b].storage || target.None? then w else Cached(w, b.parent, target.value)
  }

  /** `createEntryImpl` when it does not throw: boards on the way to an existing entry, or to the
      board that gets the new entry `e`, all store it. */
  ghost function Created(w: World, b: Board, key: string, e: Entry): (w': World)
    requires Closed(w.Keys) && b in w
    ensures w'.Keys == w.Keys
    decreases b.level
  {
    if key in w[b].storage then w
    else
      var target := Target(w, b, key);
      if target.None? then Store(w, b, key, e)
      else
        var found := Resolve(w, b.parent, target.value);
        Store(Created(w, b.parent, target.value, e), b, key, if found == null then e else found)
  }

  // ----- what operations may do to a world -----

  /** Nothing stored is replaced, and remapping stays. */
  ghost predicate Keeps(w: World, w': World) {
    && w'.Keys == w.Keys
    && forall b :: b in w ==>
         && w'[b].remapping == w[b].remapping && w'[b].autoRemapping == w[b].autoRemapping
         && forall k :: k in w[b].storage ==> k in w'[b].storage && w'[b].storage[k] == w[b].storage[k]
  }

  /** What is newly stored is what the key resolved to before. */
  ghost predicate OnlyCaches(w: World, w': World)
    requires Closed(w.Keys)
  {
    Keeps(w, w') &&
    forall b, k :: b in w && k in w'[b].storage && k !in w[b].storage ==> Resolve(w, b, k) == w'[b].storage[k]
  }

  /** What is newly stored is what the key resolved to before, if it did, and what its target
      resolves to now. */
  ghost predicate Grows(w: World, w': World)
    requires Closed(w.Keys)
  {
    Keeps(w, w') &&
    forall b, k :: b in w && k in w'[b].storage && k !in w[b].storage ==>
      && (Resolve(w, b, k) == null || Resolve(w, b, k) == w'[b].storage[k])
      && (Target(w', b, k).Some? ==> Resolve(w', b.parent, Target(w', b, k).value) == w'[b].storage[k])
  }

  /** Every stored entry of a remapped key is the one its target resolves to. */
  ghost predicate Coherent(w: World)
    requires Closed(w.Keys)
  {
    forall b, k :: b in w && k in w[b].storage && Target(w, b, k).Some? ==>
      Resolve(w, b.parent, Target(w, b, k).value) == w[b].storage[k]
  }

  /** In a coherent world a key that is remapped stands for what the key of the parent stands for. */
  lemma RemappedResolvesAlike(w: World, b: Board, key: string)
    requires Closed(w.Keys) && b in w && Coherent(w)
    ensures var Fields(storage, remapping, autoRemapping) := w[b];
            Resolve(w, b, key) ==
            if b.parent != null && key in remapping then Resolve(w, b.parent, remapping[key])
            else if b.parent != null && autoRemapping then Resolve(w, b.parent, key)
            else if key in storage then storage[key]
            else null
  {
  }

  // ----- caching is transparent -----

  lemma {:induction false} CachingChangesNoLookup(w: World, w': World, b: Board, key: string)
    requires Closed(w.Keys) && OnlyCaches(w, w') && b in w
    ensures Resolve(w', b, key) == Resolve(w, b, key)
    decreases b.level
  {
    if key !in w'[b].storage && Target(w, b, key).Some? {
      CachingChangesNoLookup(w, w', b.parent, Target(w, b, key).value);
    }
  }

  lemma SameOnlyCaches(w: World)
    requires Closed(w.Keys)
    ensures OnlyCaches(w, w)
  {
  }

  lemma StoreOnlyCaches(w: World, w': World, b: Board, key: string)
    requires Closed(w.Keys) && OnlyCaches(w, w') && b in w && key !in w[b].storage && Resolve(w, b, key) != null
    ensures OnlyCaches(w, Store(w', b, key, Resolve(w, b, key)))
  {
  }

  lemma {:induction false} CachedOnlyCaches(w: World, b: Board, key: string)
    requires Closed(w.Keys) && b in w
    ensures OnlyCaches(w, Cached(w, b, key))
    decreases b.level
  {
    hide OnlyCaches, Store;
    SameOnlyCaches(w);
    if key !in w[b].storage && Target(w, b, key).Some? {
      CachedOnlyCaches(w, b.parent, Target(w, b, key).value);
      if Resolve(w, b, key) != null {
        StoreOnlyCaches(w, Cached(w, b.parent, Target(w, b, key).value), b, key);
      }
    }
  }

  /** The caching `getEntry` on any board changes no lookup of any key on any board. */
  lemma CacheTransparent(w: World, b: Board, key: string, x: Board, k: string)
    requires Closed(w.Keys) && b in w && x in w
    ensures Resolve(Cached(w, b, key), x, k) == Resolve(w, x, k)
  {
    CachedOnlyCaches(w, b, key);
    CachingChangesNoLookup(w, Cached(w, b, key), x, k);
  }

  lemma LookedOnlyCaches(w: World, b: Board, key: string)
    requires Closed(w.Keys) && b in w
    ensures OnlyCaches(w, Looked(w, b, key))
  {
    if key !in w[b].storage && Target(w, b, key).Some? {
      CachedOnlyCaches(w, b.parent, Target(w, b, key).value);
    }
  }

  /** A `const` lookup changes no lookup of any key on any board, and not its own board. */
  lemma LookTransparent(w: World, b: Board, key: string, x: Board, k: string)
    requires Closed(w.Keys) && b in w && x in w
    ensures Resolve(Looked(w, b, key), x, k) == Resolve(w, x, k)
    ensures Looked(w, b, key)[b] == w[b]
  {
    LookedOnlyCaches(w, b, key);
    CachingChangesNoLookup(w, Looked(w, b, key), x, k);
    if key !in w[b].storage && Target(w, b, key).Some? {
      CachedBelow(w, b.parent, Target(w, b, key).value, b);
    }
  }

  /** Caching touches boards up the chain only. */
  lemma {:induction false} CachedBelow(w: World, b: Board, key: string, x: Board)
    requires Closed(w.Keys) && b in w && x in w && x.level > b.level
    ensures Cached(w, b, key)[x] == w[x]
    decreases b.level
  {
    if key !in w[b].storage && Target(w, b, key).Some? {
      CachedBelow(w, b.parent, Target(w, b, key).value, x);
    }
  }

  /** The caching form stores nothing exactly when the key is stored or leads nowhere. */
  lemma {:induction false} CachedStoresNothing(w: World, b: Board, key: string)
    requires Closed(w.Keys) && b in w
    ensures Cached(w, b, key) == w <==> key in w[b].storage || Resolve(w, b, key) == null
    decreases b.level
  {
    if key !in w[b].storage && Target(w, b, key).Some? {
      CachedStoresNothing(w, b.parent, Target(w, b, key).value);
      if Resolve(w, b, key) != null {
        assert key in Cached(w, b, key)[b].storage;
      }
    }
  }

  /** A `const` lookup stores something exactly when it looks further up for a key that its parent
      has not stored and that leads to an entry. */
  lemma LookStores(w: World, b: Board, key: string)
    requires Closed(w.Keys) && b in w
    ensures Looked(w, b, key) != w <==>
            && key !in w[b].storage && Target(w, b, key).Some?
            && Target(w, b, key).value !in w[b.parent].storage
            && Resolve(w, b.parent, Target(w, b, key).value) != null
  {
    if key !in w[b].storage && Target(w, b, key).Some? {
      CachedStoresNothing(w, b.parent, Target(w, b, key).value);
    }
  }

  lemma CachingGrows(w: World, w': World)
    requires Closed(w.Keys) && OnlyCaches(w, w')
    ensures Grows(w, w')
  {
    forall b, k | b in w && k in w'[b].storage && k !in w[b].storage && Target(w', b, k).Some?
      ensures Resolve(w', b.parent, Target(w', b, k).value) == w'[b].storage[k]
    {
      CachingChangesNoLookup(w, w', b.parent, Target(w, b, k).value);
    }
  }

  // ----- growing keeps what is resolved -----

  lemma {:induction false} ResolvedKeeps(w: World, w': World, b: Board, key: string)
    requires Closed(w.Keys) && Grows(w, w') && b in w && Resolve(w, b, key) != null
    ensures Resolve(w', b, key) == Resolve(w, b, key)
    decreases b.level
  {
    if key !in w[b].storage && key !in w'[b].storage {
      ResolvedKeeps(w, w', b.parent, Target(w, b, key).value);
    }
  }

  lemma CoherenceKeeps(w: World, w': World)
    requires Closed(w.Keys) && Grows(w, w') && Coherent(w)
    ensures Coherent(w')
  {
    forall b, k | b in w' && k in w'[b].storage && Target(w', b, k).Some?
      ensures Resolve(w', b.parent, Target(w', b, k).value) == w'[b].storage[k]
    {
      if k in w[b].storage {
        ResolvedKeeps(w, w', b.parent, Target(w, b, k).value);
      }
    }
  }

  /** Storing at a board changes no lookup on the boards below its level, its parents among them. */
  lemma {:induction false} StoreAbove(w: World, b: Board, key: string, e: Entry, x: Board, k: string)
    requires Closed(w.Keys) && b in w && x in w && x.level < b.level
    ensures Resolve(Store(w, b, key, e), x, k) == Resolve(w, x, k)
    decreases x.level
  {
    if k !in w[x].storage && Target(w, x, k).Some? {
      StoreAbove(w, b, key, e, x.parent, Target(w, x, k).value);
    }
  }

  /** What the new world resolves the created key to. */
  lemma {:induction false} CreatedResolves(w: World, b: Board, key: string, e: Entry)
    requires Closed(w.Keys) && b in w
    ensures Resolve(Created(w, b, key, e), b, key) ==
            if Resolve(w, b, key) == null then e else Resolve(w, b, key)
  {
  }

  /** Creating touches boards up the chain only. */
  lemma {:induction false} CreatedTouches(w: World, b: Board, key: string, e: Entry, x: Board)
    requires Closed(w.Keys) && b in w && x in w && x.level > b.level
    ensures Created(w, b, key, e)[x] == w[x]
    decreases b.level
  {
    if key !in w[b].storage && Target(w, b, key).Some? {
      CreatedTouches(w, b.parent, Target(w, b, key).value, e, x);
    }
  }

  /** What one newly stored key shows, when the boards above have grown. */
  lemma CreatedGrowsAt(w: World, b: Board, key: string, e: Entry, t: string, x: Board, k: string)
    requires Closed(w.Keys) && b in w && key !in w[b].storage && Target(w, b, key) == Some(t)
    requires Grows(w, Created(w, b.parent, t, e))
    requires x in w && k in Created(w, b, key, e)[x].storage && k !in w[x].storage
    ensures var w' := Created(w, b, key, e);
            && (Resolve(w, x, k) == null || Resolve(w, x, k) == w'[x].storage[k])
            && (Target(w', x, k).Some? ==> Resolve(w', x.parent, Target(w', x, k).value) == w'[x].storage[k])
  {
    var w1, w' := Created(w, b.parent, t, e), Created(w, b, key, e);
    CreatedTouches(w, b.parent, t, e, b);
    CreatedResolves(w, b.parent, t, e);
    if x == b && k == key {
      StoreAbove(w1, b, key, w'[b].storage[key], b.parent, t);
    } else if x.level >= b.level {
      CreatedTouches(w, b.parent, t, e, x);
    } else if Target(w', x, k).Some? {
      StoreAbove(w1, b, key, w'[b].storage[key], x.parent, Target(w', x, k).value);
    }
  }

  lemma CreatedGrowsHere(w: World, b: Board, key: string, e: Entry)
    requires Closed(w.Keys) && b in w && (key in w[b].storage || Target(w, b, key) == None)
    ensures Grows(w, Created(w, b, key, e))
  {
  }

  lemma CreatedKeeps(w: World, b: Board, key: string, e: Entry, t: string)
    requires Closed(w.Keys) && b in w && key !in w[b].storage && Target(w, b, key) == Some(t)
    requires Keeps(w, Created(w, b.parent, t, e))
    ensures Keeps(w, Created(w, b, key, e))
  {
    hide Resolve;
  }

  lemma {:induction false} CreatedGrows(w: World, b: Board, key: string, e: Entry)
    requires Closed(w.Keys) && b in w
    ensures Grows(w, Created(w, b, key, e))
    decreases b.level
  {
    hide Created, Resolve, Keeps;
    if key in w[b].storage || Target(w, b, key) == None {
      CreatedGrowsHere(w, b, key, e);
    } else {
      var t := Target(w, b, key).value;
      CreatedGrows(w, b.parent, t, e);
      CreatedKeeps(w, b, key, e, t);
      forall x, k | x in w && k in Created(w, b, key, e)[x].storage && k !in w[x].storage
        ensures var w' := Created(w, b, key, e);
                && (Resolve(w, x, k) == null || Resolve(w, x, k) == w'[x].storage[k])
                && (Target(w', x, k).Some? ==> Resolve(w', x.parent, Target(w', x, k).value) == w'[x].storage[k])
      {
        CreatedGrowsAt(w, b, key, e, t, x, k);
      }
    }
  }

  // ----- who sees what was created -----

  /** The board and the key at which the search for a key ends. */
  ghost function Home(w: World, b: Board, key: string): (Board, string)
    requires Closed(w.Keys) && b in w
    decreases b.level
  {
    if key in w[b].storage || Target(w, b, key).None? then (b, key) else Home(w, b.parent, Target(w, b, key).value)
  }

  /** Only keys whose search ended at the same place are stored anew, and their entry is the new one. */
  lemma {:induction false} CreatedAtHome(w: World, b: Board, key: string, e: Entry, x: Board, k: string)
    requires Closed(w.Keys) && b in w && x in w && Resolve(w, b, key) == null
    ensures k in Created(w, b, key, e)[x].storage && k !in w[x].storage ==>
              Created(w, b, key, e)[x].storage[k] == e && Home(w, x, k) == Home(w, b, key) && Resolve(w, x, k) == null
    ensures (x, k) == Home(w, b, key) ==> k in Created(w, b, key, e)[x].storage
    decreases b.level
  {
    if Target(w, b, key).Some? {
      CreatedAtHome(w, b.parent, Target(w, b, key).value, e, x, k);
    }
  }

  /** A new entry is seen through exactly the names whose search ended where it was created. */
  lemma {:induction false} CreatedIsSeen(w: World, b: Board, key: string, e: Entry, x: Board, k: string)
    requires Closed(w.Keys) && b in w && x in w && Resolve(w, b, key) == null
    ensures Resolve(Created(w, b, key, e), x, k) ==
            if Resolve(w, x, k) == null && Home(w, x, k) == Home(w, b, key) then e else Resolve(w, x, k)
    decreases x.level
  {
    hide Created;
    CreatedAtHome(w, b, key, e, x, k);
    CreatedGrows(w, b, key, e);
    GrowingKeeps(w, Created(w, b, key, e));
    if k !in w[x].storage && Target(w, x, k).Some? {
      CreatedIsSeen(w, b, key, e, x.parent, Target(w, x, k).value);
    }
  }

  /** Creating a key that leads to an entry does what looking it up does. */
  lemma {:induction false} CreatedIsCached(w: World, b: Board, key: string, e: Entry)
    requires Closed(w.Keys) && b in w && Resolve(w, b, key) != null
    ensures Created(w, b, key, e) == Cached(w, b, key)
    decreases b.level
  {
    if key !in w[b].storage {
      CreatedIsCached(w, b.parent, Target(w, b, key).value, e);
    }
  }

  // ----- one step of looking up, caching and creating -----

  lemma StoredHere(w: World, b: Board, key: string, e: Entry)
    requires Closed(w.Keys) && b in w && key in w[b].storage
    ensures Resolve(w, b, key) == w[b].storage[key] && Cached(w, b, key) == w && Created(w, b, key, e) == w
  {
  }

  lemma FoundAbove(w: World, b: Board, key: string)
    requires Closed(w.Keys) && b in w && key !in w[b].storage && Target(w, b, key).Some?
    ensures var t := Target(w, b, key).value;
            var found := Resolve(w, b.parent, t);
            && Resolve(w, b, key) == found
            && (found == null ==> Cached(w, b, key) == Cached(w, b.parent, t))
            && (found != null ==> Cached(w, b, key) == Store(Cached(w, b.parent, t), b, key, found))
  {
  }

  lemma LookedHere(w: World, b: Board, key: string)
    requires Closed(w.Keys) && b in w && (key in w[b].storage || Target(w, b, key) == None)
    ensures Looked(w, b, key) == w
  {
  }

  lemma LookedAbove(w: World, b: Board, key: string)
    requires Closed(w.Keys) && b in w && key !in w[b].storage && Target(w, b, key).Some?
    ensures Looked(w, b, key) == Cached(w, b.parent, Target(w, b, key).value)
  {
  }

  lemma CreatedAbove(w: World, b: Board, key: string, e: Entry)
    requires Closed(w.Keys) && b in w && key !in w[b].storage && Target(w, b, key).Some?
    ensures var t := Target(w, b, key).value;
            var found := Resolve(w, b.parent, t);
            Created(w, b, key, e) == Store(Created(w, b.parent, t, e), b, key, if found == null then e else found)
  {
  }

  lemma FoundNowhere(w: World, b: Board, key: string)
    requires Closed(w.Keys) && b in w && key !in w[b].storage && Target(w, b, key) == None
    ensures Resolve(w, b, key) == null && Cached(w, b, key) == w
    ensures forall e :: Created(w, b, key, e) == Store(w, b, key, e)
  {
  }

  lemma Stored(w: World, w': World, b: Board, key: string, e: Entry)
    requires b in w && w'.Keys == w.Keys
    requires w'[b] == w[b].(storage := w[b].storage[key := e])
    requires forall x :: x in w && x != b ==> w'[x] == w[x]
    ensures w' == Store(w, b, key, e)
  {
  }

  // ----- which entries are stored -----

  ghost function StoredIn(w: World): set<Entry> {
    set b, k | b in w && k in w[b].storage :: w[b].storage[k]
  }

  lemma {:induction false} ResolvedIsStored(w: World, b: Board, key: string)
    requires Closed(w.Keys) && b in w && Resolve(w, b, key) != null
    ensures Resolve(w, b, key) in StoredIn(w)
    decreases b.level
  {
    if key !in w[b].storage {
      ResolvedIsStored(w, b.parent, Target(w, b, key).value);
    }
  }

  lemma HereIsStored(w: World, b: Board, key: string)
    requires b in w && key in w[b].storage
    ensures w[b].storage[key] in StoredIn(w)
  {
  }

  lemma {:induction false} CreatedStores(w: World, b: Board, key: string, e: Entry)
    requires Closed(w.Keys) && b in w
    ensures StoredIn(w) <= StoredIn(Created(w, b, key, e)) <= StoredIn(w) + {e}
    decreases b.level
  {
    if key !in w[b].storage && Target(w, b, key).Some? {
      var t := Target(w, b, key).value;
      CreatedStores(w, b.parent, t, e);
      if Resolve(w, b.parent, t) != null {
        ResolvedIsStored(w, b.parent, t);
      }
      CreatedTouches(w, b.parent, t, e, b);
      StoreStores(Created(w, b.parent, t, e), b, key, Created(w, b, key, e)[b].storage[key]);
    } else if key !in w[b].storage {
      StoreStores(w, b, key, e);
    }
  }

  lemma StoreStores(w: World, b: Board, key: string, e: Entry)
    requires b in w && key !in w[b].storage
    ensures StoredIn(w) <= StoredIn(Store(w, b, key, e)) <= StoredIn(w) + {e}
  {
    var w' := Store(w, b, key, e);
    forall x | x in StoredIn(w)
      ensures x in StoredIn(w')
    {
      var c, k :| c in w && k in w[c].storage && w[c].storage[k] == x;
      assert c in w' && k in w'[c].storage && w'[c].storage[k] == x;
    }
  }

  lemma OnlyCachesStores(w: World, w': World)
    requires Closed(w.Keys) && OnlyCaches(w, w')
    ensures StoredIn(w') == StoredIn(w)
  {
    forall x | x in StoredIn(w')
      ensures x in StoredIn(w)
    {
      var c, k :| c in w' && k in w'[c].storage && w'[c].storage[k] == x;
      if k !in w[c].storage {
        ResolvedIsStored(w, c, k);
      }
    }
    forall x | x in StoredIn(w)
      ensures x in StoredIn(w')
    {
      var c, k :| c in w && k in w[c].storage && w[c].storage[k] == x;
      assert w'[c].storage[k] == x;
    }
  }

  lemma GrowthAddsUp(w0: World, w1: World, w2: World)
    requires Closed(w0.Keys) && Grows(w0, w1) && Grows(w1, w2) && Coherent(w2)
    ensures Grows(w0, w2)
  {
    forall b, k | b in w0 && k in w2[b].storage && k !in w0[b].storage && Resolve(w0, b, k) != null
      ensures Resolve(w0, b, k) == w2[b].storage[k]
    {
      ResolvedKeeps(w0, w1, b, k);
      ResolvedKeeps(w1, w2, b, k);
    }
  }

  // ----- the boards -----

  ghost predicate Remaps(w: World, b: Board, key: string)
    requires b in w
  {
    key in w[b].remapping || w[b].autoRemapping
  }

  /** The key is looked for up the chain until a board remaps it and has no parent. */
  ghost predicate Stranded(w: World, b: Board, key: string)
    requires Closed(w.Keys) && b in w
    decreases b.level
  {
    key !in w[b].storage &&
    if b.parent == null then Remaps(w, b, key)
    else Target(w, b, key).Some? && Stranded(w, b.parent, Target(w, b, key).value)
  }

  lemma {:induction false} StrandedIsNowhere(w: World, b: Board, key: string)
    requires Closed(w.Keys) && b in w && Stranded(w, b, key)
    ensures Resolve(w, b, key) == null
    decreases b.level
  {
    if b.parent != null {
      StrandedIsNowhere(w, b.parent, Target(w, b, key).value);
    }
  }

  lemma NotStranded(w: World, b: Board, key: string)
    requires Closed(w.Keys) && b in w && key in w[b].storage
    ensures !Stranded(w, b, key)
  {
  }

  lemma StrandedStep(w: World, b: Board, key: string)
    requires Closed(w.Keys) && b in w && key !in w[b].storage
    ensures b.parent == null ==> (Stranded(w, b, key) <==> Remaps(w, b, key))
    ensures b.parent != null ==> (Target(w, b, key).Some? <==> Remaps(w, b, key))
    ensures Target(w, b, key).Some? ==>
              (Stranded(w, b, key) <==> Stranded(w, b.parent, Target(w, b, key).value))
    ensures !Remaps(w, b, key) ==> !Stranded(w, b, key)
  {
  }

  /** A board without a parent remaps no key but those it has stored. */
  ghost predicate Grounded(w: World) {
    forall b :: b in w && b.parent == null ==> !w[b].autoRemapping && w[b].remapping.Keys <= w[b].storage.Keys
  }

  lemma {:induction false} LongerThanAll(keys: set<string>) returns (n: nat)
    ensures forall k :: k in keys ==> |k| < n
  {
    if keys == {} {
      n := 0;
    } else {
      var k :| k in keys;
      n := LongerThanAll(keys - {k});
      n := if |k| < n then n else |k| + 1;
    }
  }

  lemma {:induction false} GroundedNeverStrands(w: World, b: Board, key: string)
    requires Closed(w.Keys) && Grounded(w) && b in w
    ensures !Stranded(w, b, key)
    decreases b.level
  {
    if b.parent != null && Target(w, b, key).Some? {
      GroundedNeverStrands(w, b.parent, Target(w, b, key).value);
    }
  }

  lemma UngroundedStrands(w: World) returns (b: Board, key: string)
    requires Closed(w.Keys) && !Grounded(w)
    ensures b in w && Stranded(w, b, key)
  {
    b :| b in w && b.parent == null && (w[b].autoRemapping || !(w[b].remapping.Keys <= w[b].storage.Keys));
    if w[b].autoRemapping {
      var n := LongerThanAll(w[b].storage.Keys);
      key := seq(n, i => 'k');
      assert |key| == n && key !in w[b].storage.Keys;
    } else {
      key :| key in w[b].remapping && key !in w[b].storage;
    }
  }

  ghost predicate NoneStranded(w: World)
    requires Closed(w.Keys)
  {
    forall b, key :: b in w ==> !Stranded(w, b, key)
  }

  /** No key of any board is stranded exactly when the world is grounded. */
  lemma GroundedExactly(w: World)
    requires Closed(w.Keys)
    ensures Grounded(w) <==> NoneStranded(w)
  {
    hide Stranded, Grounded;
    if Grounded(w) {
      forall b, key | b in w
        ensures !Stranded(w, b, key)
      {
        GroundedNeverStrands(w, b, key);
      }
    } else {
      var b, key := UngroundedStrands(w);
    }
  }

  ghost function Snapshot(boards: set<Board>): (w: World)
    reads boards
    ensures w.Keys == boards
  {
    map b | b in boards :: b.Val()
  }

  lemma GroundedKeeps(w: World, w': World)
    requires Grounded(w) && Keeps(w, w')
    ensures Grounded(w')
  {
  }

  lemma GrowingKeeps(w: World, w': World)
    requires Closed(w.Keys) && Grows(w, w')
    ensures Keeps(w, w')
  {
  }

  lemma NothingGrows(w: World)
    requires Closed(w.Keys)
    ensures Grows(w, w)
  {
  }

  datatype Creation = Thrown | NullEntry | Made(entry: Entry)

  datatype Outcome = Refused | Written | NullDereference

  class Board {
    const parent: Board?
    var storage: map<string, Entry>
    var remapping: map<string, string>
    var autoRemapping: bool
    ghost const level: nat

    constructor (parent: Board?)
      ensures this.parent == parent
      ensures storage == map[] && remapping == map[] && !autoRemapping
      ensures parent != null ==> parent.level < level
    {
      this.parent := parent;
      storage, remapping, autoRemapping := map[], map[], false;
      level := if parent == null then 0 else parent.level + 1;
    }

    ghost function Val(): Fields
      reads this
    {
      Fields(storage, remapping, autoRemapping)
    }

    method EnableAutoRemapping(remap: bool)
      modifies this
      ensures Val() == old(Val()).(autoRemapping := remap)
    {
      autoRemapping := remap;
    }

    /** The first remapping of a key stays: `insert` overwrites nothing. */
    method AddSubtreeRemapping(inside: string, outside: string)
      modifies this
      ensures storage == old(storage) && autoRemapping == old(autoRemapping)
      ensures remapping == if inside in old(remapping) then old(remapping)
                           else old(remapping)[inside := outside]
    {
      if inside !in remapping {
        remapping := remapping[inside := outside];
      }
    }

    /** `getEntry() const`.  The parent's form that is called is the one that caches. */
    method FindEntry(key: string, ghost boards: set<Board>) returns (e: Entry?)
      requires Closed(boards) && this in boards
      modifies boards`storage
      ensures e == Resolve(old(Snapshot(boards)), this, key)
      ensures Snapshot(boards) == Looked(old(Snapshot(boards)), this, key)
      ensures Val() == old(Val())
    {
      hide Resolve, Cached, Looked;
      ghost var w := Snapshot(boards);
      assert w[this] == Val();
      LookTransparent(w, this, key, this, key);
      if key in storage {
        StoredHere(w, this, key, storage[key]);
        LookedHere(w, this, key);
        return storage[key];
      }
      if parent == null || (key !in remapping && !autoRemapping) {
        FoundNowhere(w, this, key);
        LookedHere(w, this, key);
        return null;
      }
      FoundAbove(w, this, key);
      LookedAbove(w, this, key);
      e := parent.GetEntry(if key in remapping then remapping[key] else key, boards);
      assert Snapshot(boards)[this] == Val();
    }

    method Keep(key: string, e: Entry, ghost boards: set<Board>)
      requires Closed(boards) && this in boards
      modifies this`storage
      ensures Snapshot(boards) == Store(old(Snapshot(boards)), this, key, e)
    {
      ghost var w := Snapshot(boards);
      assert w[this] == Val();
      storage := storage[key := e];
      Stored(w, Snapshot(boards), this, key, e);
    }

    /** `getEntry()`, which caches. */
    method GetEntry(key: string, ghost boards: set<Board>) returns (e: Entry?)
      requires Closed(boards) && this in boards
      modifies boards`storage
      ensures e == Resolve(old(Snapshot(boards)), this, key)
      ensures Snapshot(boards) == Cached(old(Snapshot(boards)), this, key)
      decreases level
    {
      hide Resolve, Cached;
      ghost var w := Snapshot(boards);
      assert w[this] == Val();
      if key in storage {
        StoredHere(w, this, key, storage[key]);
        return storage[key];
      }
      if parent == null || (key !in remapping && !autoRemapping) {
        FoundNowhere(w, this, key);
        return null;
      }
      FoundAbove(w, this, key);
      var newKey := if key in remapping then remapping[key] else key;
      e := parent.GetEntry(newKey, boards);
      if e != null {
        Keep(key, e, boards);
      }
    }

    /** Throws exactly when the entry that exists up the chain was declared with another type, and
        then no board has changed.  Gives a null entry exactly when the key is stranded; the source
        then has stored it, and nothing is said of the boards. */
    method CreateEntryImpl(key: string, t: PortType, ghost boards: set<Board>) returns (r: Creation)
      requires Closed(boards) && this in boards
      modifies boards`storage
      ensures r == NullEntry <==> Stranded(old(Snapshot(boards)), this, key)
      ensures var found := Resolve(old(Snapshot(boards)), this, key);
              && (r == Thrown <==> found != null && Clash(old(found.portType), t))
              && (r.Made? && found != null ==> r.entry == found)
              && (r.Made? && found == null ==> fresh(r.entry) && r.entry.portType == t && r.entry.value == None)
      ensures r == Thrown ==> Snapshot(boards) == old(Snapshot(boards))
      ensures r.Made? ==> Snapshot(boards) == Created(old(Snapshot(boards)), this, key, r.entry)
      decreases level
    {
      hide Resolve, Created, StoredIn, Stranded;
      ghost var w := Snapshot(boards);
      assert w[this] == Val();
      if key in storage {
        StoredHere(w, this, key, storage[key]);
        NotStranded(w, this, key);
        if Clash(storage[key].portType, t) {
          return Thrown;
        }
        return Made(storage[key]);
      }
      StrandedStep(w, this, key);
      if key in remapping || autoRemapping {
        if parent == null {
          StrandedIsNowhere(w, this, key);
          return NullEntry;
        }
        r := parent.CreateEntryImpl(if key in remapping then remapping[key] else key, t, boards);
        FoundAbove(w, this, key);
      } else {
        var e := new Entry(t);
        r := Made(e);
        FoundNowhere(w, this, key);
      }
      if r.Made? {
        if Target(w, this, key).Some? {
          CreatedAbove(w, this, key, r.entry);
        }
        Keep(key, r.entry, boards);
      }
    }

    /** What `set` needs to know of the entry it is given for a key that is not stored here. */
    method CreateForSet(key: string, t: PortType, ghost boards: set<Board>, ghost entries: set<Entry>)
      returns (r: Creation)
      requires Closed(boards) && this in boards
      requires entries == StoredIn(Snapshot(boards))
      modifies boards`storage
      ensures r == NullEntry <==> Stranded(old(Snapshot(boards)), this, key)
      ensures var found := Resolve(old(Snapshot(boards)), this, key);
              && (r == Thrown <==> found != null && Clash(old(found.portType), t))
              && (r.Made? && found != null ==> r.entry == found && found in entries)
              && (r.Made? && found == null ==> fresh(r.entry) && r.entry.portType == t)
      ensures r.Made? ==> Resolve(Snapshot(boards), this, key) == r.entry
      ensures r == Thrown ==> Snapshot(boards) == old(Snapshot(boards))
      ensures r.Made? ==> Snapshot(boards) == Created(old(Snapshot(boards)), this, key, r.entry)
    {
      hide Resolve, Created, StoredIn, Stranded, Closed;
      ghost var w := Snapshot(boards);
      r := CreateEntryImpl(key, t, boards);
      if r.Made? {
        CreatedResolves(w, this, key, r.entry);
        if Resolve(w, this, key) != null {
          ResolvedIsStored(w, this, key);
        }
      }
    }

    /** Writes exactly one entry, the one the key resolves to, or nothing when it throws.  Follows a
        null pointer exactly when the key is stranded. */
    method Set(key: string, arg: Argument, convert: (Value, nat) -> Option<int>,
               ghost boards: set<Board>, ghost entries: set<Entry>)
      returns (o: Outcome)
      requires Closed(boards) && this in boards
      requires entries == StoredIn(Snapshot(boards))
      modifies boards`storage, entries
      ensures o == NullDereference <==> Stranded(old(Snapshot(boards)), this, key)
      ensures var w := old(Snapshot(boards));
              var w' := Snapshot(boards);
              var e := Resolve(w', this, key);
              && (o == Written ==> e != null && w' == Created(w, this, key, e))
              && (o == Refused ==> w' == w)
              && (o == Written && Resolve(w, this, key) != null ==> e == Resolve(w, this, key))
              && (o == Written && Resolve(w, this, key) == null ==>
                    fresh(e) && e.portType == Typed(arg.value.id) && e.value == Some(arg.value))
              && (forall x :: x in entries && (o != Written || x != e) ==> unchanged(x))
      ensures var e := old(Resolve(Snapshot(boards), this, key));
              e != null ==>
                Effect(key in old(storage), old(e.portType), old(e.value), arg, convert, o == Written,
                       e.portType, e.value)
      ensures old(Resolve(Snapshot(boards), this, key)) == null ==> o != Refused
    {
      hide Resolve, Created, StoredIn, Stranded, Closed, Effect;
      ghost var w := Snapshot(boards);
      ghost var found := Resolve(w, this, key);
      assert w[this] == Val();
      if key !in storage {
        if found != null {
          EffectAbove(found.portType, found.value, arg, convert);
        }
        var r := CreateForSet(key, Typed(arg.value.id), boards, entries);
        if r == Thrown {
          assert Effect(false, old(found.portType), old(found.value), arg, convert, false, found.portType, found.value);
          return Refused;
        }
        if r == NullEntry {
          StrandedIsNowhere(w, this, key);
          return NullDereference;
        }
        ghost var w' := Snapshot(boards);
        r.entry.value := Some(arg.value);
        assert Snapshot(boards) == w';
        return Written;
      }
      NotStranded(w, this, key);
      StoredHere(w, this, key, storage[key]);
      HereIsStored(w, this, key);
      var ok := storage[key].Accept(arg, convert);
      assert Snapshot(boards) == w;
      return if ok then Written else Refused;
    }
  }

  // ----- runs -----

  datatype Op =
    | Get(board: Board, key: string)
    | Find(board: Board, key: string)
    | Create(board: Board, key: string, portType: PortType)
    | Put(board: Board, key: string, arg: Argument)

  /** What an entry holds. */
  datatype Cell = Cell(portType: PortType, value: Option<Value>)

  ghost function Cells(entries: set<Entry>): (cells: map<Entry, Cell>)
    reads entries
    ensures cells.Keys == entries && forall e :: e in entries ==> cells[e] == Cell(e.portType, e.value)
  {
    map e | e in entries :: Cell(e.portType, e.value)
  }

  /** The operation is a set that succeeds, and this is the entry it writes. */
  ghost predicate Writes(op: Op, done: bool, w': World, e: Entry)
    requires Closed(w'.Keys) && op.board in w'
  {
    op.Put? && done && Resolve(w', op.board, op.key) == e
  }

  /** What one operation does to what the entries hold: nothing but a set changes what an entry holds, it
      changes the one entry its key resolves to, and it changes that as `Effect` says. */
  ghost predicate Turn(op: Op, convert: (Value, nat) -> Option<int>, done: bool, w: World, cells: map<Entry, Cell>,
                       w': World, cells': map<Entry, Cell>)
  {
    && Closed(w.Keys) && w'.Keys == w.Keys && op.board in w
    && (forall e :: e in cells ==> e in cells' && (!Writes(op, done, w', e) ==> cells'[e] == cells[e]))
    && (forall e :: e in cells' && e !in cells && !Writes(op, done, w', e) ==>
          op.Create? && cells'[e] == Cell(op.portType, None))
    && (op.Put? ==> Sets(op, convert, done, w, cells, w', cells'))
  }

  ghost predicate Sets(op: Op, convert: (Value, nat) -> Option<int>, done: bool, w: World, cells: map<Entry, Cell>,
                       w': World, cells': map<Entry, Cell>)
    requires Closed(w.Keys) && w'.Keys == w.Keys && op.board in w && op.Put?
  {
    var e, e' := Resolve(w, op.board, op.key), Resolve(w', op.board, op.key);
    if e == null then
      && done && e' != null && e' !in cells && e' in cells'
      && cells'[e'] == Cell(Typed(op.arg.value.id), Some(op.arg.value))
    else
      && e' == e && e in cells && e in cells'
      && Effect(op.key in w[op.board].storage, cells[e].portType, cells[e].value, op.arg, convert, done,
                cells'[e].portType, cells'[e].value)
  }

  /** Nothing the entries hold has changed. */
  lemma NothingTurns(op: Op, convert: (Value, nat) -> Option<int>, w: World, cells: map<Entry, Cell>, w': World)
    requires Closed(w.Keys) && w'.Keys == w.Keys && op.board in w && !op.Put?
    ensures Turn(op, convert, false, w, cells, w', cells)
  {
    hide Resolve, Closed;
  }

  /** At most one new entry is stored, as it was created. */
  lemma CreationTurns(op: Op, convert: (Value, nat) -> Option<int>, w: World, cells: map<Entry, Cell>, w': World,
                      cells': map<Entry, Cell>, e: Entry)
    requires Closed(w.Keys) && w'.Keys == w.Keys && op.board in w && op.Create?
    requires cells.Keys <= cells'.Keys <= cells.Keys + {e} && forall x :: x in cells ==> cells'[x] == cells[x]
    requires e in cells || e !in cells' || cells'[e] == Cell(op.portType, None)
    ensures Turn(op, convert, false, w, cells, w', cells')
  {
    hide Resolve, Closed;
  }

  method StepCreate(op: Op, convert: (Value, nat) -> Option<int>, ghost boards: set<Board>, ghost entries: set<Entry>)
    requires Closed(boards) && op.board in boards && op.Create?
    requires entries == StoredIn(Snapshot(boards)) && !Stranded(Snapshot(boards), op.board, op.key)
    modifies boards`storage
    ensures Grows(old(Snapshot(boards)), Snapshot(boards))
    ensures forall e :: e in StoredIn(Snapshot(boards)) ==> e in entries || fresh(e)
    ensures Turn(op, convert, false, old(Snapshot(boards)), old(Cells(entries)),
                 Snapshot(boards), Cells(StoredIn(Snapshot(boards))))
  {
    hide Resolve, Created, StoredIn, Closed, Grows, Stranded, Turn;
    ghost var w, was := Snapshot(boards), Cells(entries);
    var r := op.board.CreateEntryImpl(op.key, op.portType, boards);
    if r.Made? {
      CreatedGrows(w, op.board, op.key, r.entry);
      CreatedStores(w, op.board, op.key, r.entry);
      if Resolve(w, op.board, op.key) != null {
        ResolvedIsStored(w, op.board, op.key);
      }
      CreationTurns(op, convert, w, was, Snapshot(boards), Cells(StoredIn(Snapshot(boards))), r.entry);
    } else {
      NothingGrows(w);
      assert Cells(entries) == was;
      NothingTurns(op, convert, w, was, Snapshot(boards));
    }
  }

  /** A set that is refused leaves everything, one that succeeds writes the entry its key resolves to. */
  lemma SetTurns(op: Op, convert: (Value, nat) -> Option<int>, done: bool, w: World, cells: map<Entry, Cell>,
                 w': World, cells': map<Entry, Cell>)
    requires Closed(w.Keys) && w'.Keys == w.Keys && op.board in w && op.Put?
    requires cells.Keys <= cells'.Keys && (!done ==> w' == w && cells' == cells)
    requires var e := Resolve(w', op.board, op.key);
             done ==> cells'.Keys <= cells.Keys + {e} && forall x :: x in cells && x != e ==> cells'[x] == cells[x]
    requires Sets(op, convert, done, w, cells, w', cells')
    ensures Turn(op, convert, done, w, cells, w', cells')
  {
    hide Resolve, Closed, Sets;
  }

  method StepPut(op: Op, convert: (Value, nat) -> Option<int>, ghost boards: set<Board>, ghost entries: set<Entry>)
    returns (done: bool)
    requires Closed(boards) && op.board in boards && op.Put?
    requires entries == StoredIn(Snapshot(boards)) && !Stranded(Snapshot(boards), op.board, op.key)
    modifies boards`storage, entries
    ensures Grows(old(Snapshot(boards)), Snapshot(boards))
    ensures forall e :: e in StoredIn(Snapshot(boards)) ==> e in entries || fresh(e)
    ensures Turn(op, convert, done, old(Snapshot(boards)), old(Cells(entries)),
                 Snapshot(boards), Cells(StoredIn(Snapshot(boards))))
  {
    hide Resolve, Created, StoredIn, Closed, Grows, Stranded, Turn, Effect;
    ghost var w, was := Snapshot(boards), Cells(entries);
    if Resolve(w, op.board, op.key) != null {
      ResolvedIsStored(w, op.board, op.key);
    }
    var o := op.board.Set(op.key, op.arg, convert, boards, entries);
    done := o == Written;
    ghost var w' := Snapshot(boards);
    if done {
      ghost var e := Resolve(w', op.board, op.key);
      CreatedGrows(w, op.board, op.key, e);
      CreatedStores(w, op.board, op.key, e);
      ResolvedIsStored(w', op.board, op.key);
    } else {
      NothingGrows(w);
    }
    SetTurns(op, convert, done, w, was, w', Cells(StoredIn(w')));
  }

  /** One operation, which may throw: `done` says whether it is a set that succeeded. */
  method Step(op: Op, convert: (Value, nat) -> Option<int>,
              ghost boards: set<Board>, ghost entries: set<Entry>)
    returns (done: bool)
    requires Closed(boards) && Grounded(Snapshot(boards)) && op.board in boards
    requires entries == StoredIn(Snapshot(boards))
    modifies boards`storage, entries
    ensures Grows(old(Snapshot(boards)), Snapshot(boards))
    ensures forall e :: e in StoredIn(Snapshot(boards)) ==> e in entries || fresh(e)
    ensures Turn(op, convert, done, old(Snapshot(boards)), old(Cells(entries)),
                 Snapshot(boards), Cells(StoredIn(Snapshot(boards))))
  {
    hide Resolve, Cached, Looked, StoredIn, Grounded, Closed, OnlyCaches, Grows, Stranded, Turn;
    ghost var w, was := Snapshot(boards), Cells(entries);
    GroundedNeverStrands(w, op.board, op.key);
    done := false;
    match op {
      case Get(b, key) =>
        var _ := b.GetEntry(key, boards);
        CachedOnlyCaches(w, b, key);
        CachingGrows(w, Snapshot(boards));
        OnlyCachesStores(w, Snapshot(boards));
        NothingTurns(op, convert, w, was, Snapshot(boards));
      case Find(b, key) =>
        var _ := b.FindEntry(key, boards);
        LookedOnlyCaches(w, b, key);
        CachingGrows(w, Snapshot(boards));
        OnlyCachesStores(w, Snapshot(boards));
        NothingTurns(op, convert, w, was, Snapshot(boards));
      case Create(_, _, _) =>
        StepCreate(op, convert, boards, entries);
      case Put(_, _, _) =>
        done := StepPut(op, convert, boards, entries);
    }
  }

  // ----- what holds between any two points of a run -----

  ghost predicate TypesStay(cells: map<Entry, Cell>, cells': map<Entry, Cell>) {
    forall e :: e in cells ==>
      e in cells' && (StronglyTyped(cells[e].portType) ==> cells'[e].portType == cells[e].portType)
  }

  /** The worlds and what all stored entries hold, before the first operation and after each. */
  ghost predicate History(boards: set<Board>, worlds: seq<World>, cells: seq<map<Entry, Cell>>) {
    && |worlds| == |cells| > 0 && Closed(boards)
    && (forall i :: 0 <= i < |worlds| ==>
          worlds[i].Keys == boards && Coherent(worlds[i]) && cells[i].Keys == StoredIn(worlds[i]))
    && (forall i, j :: 0 <= i <= j < |worlds| ==> Grows(worlds[i], worlds[j]) && TypesStay(cells[i], cells[j]))
  }

  /** Each operation has done its turn; `done` tells the sets that succeeded. */
  ghost predicate Turns(ops: seq<Op>, convert: (Value, nat) -> Option<int>, done: seq<bool>, worlds: seq<World>,
                        cells: seq<map<Entry, Cell>>)
  {
    && |worlds| == |cells| == |ops| + 1 && |done| == |ops|
    && forall i :: 0 <= i < |ops| ==> Turn(ops[i], convert, done[i], worlds[i], cells[i], worlds[i + 1], cells[i + 1])
  }

  lemma HistoryAtFirst(boards: set<Board>, w: World, cells: map<Entry, Cell>)
    requires Closed(boards) && w.Keys == boards && Coherent(w) && cells.Keys == StoredIn(w)
    ensures History(boards, [w], [cells])
  {
    hide Coherent, StoredIn, Grows, Closed;
    NothingGrows(w);
  }

  /** One more step carries everything that held between two points on to the new one. */
  lemma HistoryOn(boards: set<Board>, worlds: seq<World>, cells: seq<map<Entry, Cell>>, w: World,
                  now: map<Entry, Cell>)
    requires History(boards, worlds, cells) && w.Keys == boards && now.Keys == StoredIn(w)
    requires Grows(worlds[|worlds| - 1], w) && TypesStay(cells[|cells| - 1], now)
    ensures Coherent(w) && History(boards, worlds + [w], cells + [now])
  {
    hide Coherent, StoredIn, Grows, Closed, TypesStay;
    var last := |worlds| - 1;
    CoherenceKeeps(worlds[last], w);
    NothingGrows(w);
    forall i | 0 <= i <= last
      ensures Grows(worlds[i], w) && TypesStay(cells[i], now)
    {
      GrowthAddsUp(worlds[i], worlds[last], w);
      TypesStayOn(cells[i], cells[last], now);
    }
    TypesStayOn(now, now, now);
    var worlds', cells' := worlds + [w], cells + [now];
    forall i, j | 0 <= i <= j < |worlds'|
      ensures Grows(worlds'[i], worlds'[j]) && TypesStay(cells'[i], cells'[j])
    {
    }
  }

  lemma TurnsOn(ops: seq<Op>, convert: (Value, nat) -> Option<int>, done: seq<bool>, worlds: seq<World>,
                cells: seq<map<Entry, Cell>>, op: Op, ok: bool, w: World, now: map<Entry, Cell>)
    requires Turns(ops, convert, done, worlds, cells)
    requires Turn(op, convert, ok, worlds[|ops|], cells[|ops|], w, now)
    ensures Turns(ops + [op], convert, done + [ok], worlds + [w], cells + [now])
  {
    hide Turn;
  }

  lemma HistoryIsCoherent(boards: set<Board>, worlds: seq<World>, cells: seq<map<Entry, Cell>>)
    requires History(boards, worlds, cells)
    ensures |worlds| > 0 && Coherent(worlds[|worlds| - 1])
  {
  }

  lemma TypesStayOn(a: map<Entry, Cell>, b: map<Entry, Cell>, c: map<Entry, Cell>)
    ensures TypesStay(a, b) && TypesStay(b, c) ==> TypesStay(a, c)
    ensures TypesStay(a, a)
  {
  }

  lemma TurnKeepsTypes(op: Op, convert: (Value, nat) -> Option<int>, done: bool, w: World, cells: map<Entry, Cell>,
                       w': World, cells': map<Entry, Cell>)
    requires Turn(op, convert, done, w, cells, w', cells')
    ensures TypesStay(cells, cells')
  {
    hide Resolve, Closed;
  }

  /** Between any two points: a key that resolves goes on resolving to its entry, at every point a
      remapped key and its target resolve alike, and an entry keeps the type it was once declared with. */
  lemma HistoryMeans(boards: set<Board>, worlds: seq<World>, cells: seq<map<Entry, Cell>>, i: nat, j: nat, b: Board,
                     key: string)
    requires History(boards, worlds, cells) && i <= j < |worlds| && b in boards
    ensures Resolve(worlds[i], b, key) != null ==> Resolve(worlds[j], b, key) == Resolve(worlds[i], b, key)
    ensures var Fields(storage, remapping, autoRemapping) := worlds[i][b];
            Resolve(worlds[i], b, key) ==
            if b.parent != null && key in remapping then Resolve(worlds[i], b.parent, remapping[key])
            else if b.parent != null && autoRemapping then Resolve(worlds[i], b.parent, key)
            else if key in storage then storage[key]
            else null
    ensures var e := Resolve(worlds[i], b, key);
            e != null ==>
              && e in cells[i] && e in cells[j]
              && (StronglyTyped(cells[i][e].portType) ==> cells[j][e].portType == cells[i][e].portType)
  {
    hide Resolve, StoredIn, Grows, Coherent;
    assert Grows(worlds[i], worlds[j]) && TypesStay(cells[i], cells[j]);
    if Resolve(worlds[i], b, key) != null {
      ResolvedKeeps(worlds[i], worlds[j], b, key);
      ResolvedIsStored(worlds[i], b, key);
    }
    RemappedResolvesAlike(worlds[i], b, key);
  }

  /** From `i` to `j` no set writes the entry, under whatever name. */
  ghost predicate Unwritten(ops: seq<Op>, convert: (Value, nat) -> Option<int>, done: seq<bool>, worlds: seq<World>,
                            cells: seq<map<Entry, Cell>>, e: Entry, i: nat, j: nat)
    requires Turns(ops, convert, done, worlds, cells) && j <= |ops|
  {
    forall m {:trigger Turn(ops[m], convert, done[m], worlds[m], cells[m], worlds[m + 1], cells[m + 1])} ::
      i <= m < j && Turn(ops[m], convert, done[m], worlds[m], cells[m], worlds[m + 1], cells[m + 1]) ==>
        !Writes(ops[m], done[m], worlds[m + 1], e)
  }

  /** Lookups, creations, sets that are refused and sets of other entries change nothing of what an entry
      holds. */
  lemma {:induction false} UnwrittenStays(ops: seq<Op>, convert: (Value, nat) -> Option<int>, done: seq<bool>,
                                          worlds: seq<World>, cells: seq<map<Entry, Cell>>, e: Entry, i: nat, j: nat)
    requires Turns(ops, convert, done, worlds, cells) && i <= j <= |ops| && e in cells[i]
    requires Unwritten(ops, convert, done, worlds, cells, e, i, j)
    ensures e in cells[j] && cells[j][e] == cells[i][e]
    decreases j
  {
    hide Writes;
    if i < j {
      var m := j - 1;
      assert Turn(ops[m], convert, done[m], worlds[m], cells[m], worlds[m + 1], cells[m + 1]);
      UnwrittenStays(ops, convert, done, worlds, cells, e, i, m);
    }
  }

  /** The set takes its argument as it is: nothing was there, the key was not stored on the board, the entry
      was untyped, or it is of the argument's type. */
  ghost predicate Plain(w: World, cells: map<Entry, Cell>, op: Op)
    requires Closed(w.Keys) && op.board in w && op.Put?
  {
    var e := Resolve(w, op.board, op.key);
    e != null && e in cells && op.key in w[op.board].storage && StronglyTyped(cells[e].portType) ==>
      cells[e].portType == Typed(op.arg.value.id) && TakesAsIs(cells[e].value, op.arg.value)
  }

  /** What was set is there: under every name that led to the entry when it was set, it is found to hold
      what the last set left there, which is the very value that was set where it is taken as it is. */
  lemma SetIsThere(boards: set<Board>, ops: seq<Op>, convert: (Value, nat) -> Option<int>, done: seq<bool>,
                   worlds: seq<World>, cells: seq<map<Entry, Cell>>, i: nat, j: nat, b: Board, key: string)
    requires History(boards, worlds, cells) && Turns(ops, convert, done, worlds, cells)
    requires i < j <= |ops| && ops[i].Put? && done[i] && ops[i].board in boards && b in boards
    requires Resolve(worlds[i + 1], b, key) == Resolve(worlds[i + 1], ops[i].board, ops[i].key)
    requires var e := Resolve(worlds[i + 1], b, key);
             e != null ==> Unwritten(ops, convert, done, worlds, cells, e, i + 1, j)
    ensures var e := Resolve(worlds[j], b, key);
            && e != null && e == Resolve(worlds[i + 1], ops[i].board, ops[i].key)
            && e in cells[i + 1] && e in cells[j] && cells[j][e] == cells[i + 1][e]
            && (Plain(worlds[i], cells[i], ops[i]) ==> cells[j][e].value == Some(ops[i].arg.value))
  {
    hide Resolve, StoredIn, Grows, Coherent, Closed, TypesStay;
    assert Turn(ops[i], convert, done[i], worlds[i], cells[i], worlds[i + 1], cells[i + 1]);
    var e := Resolve(worlds[i + 1], b, key);
    HistoryMeans(boards, worlds, cells, i + 1, j, b, key);
    UnwrittenStays(ops, convert, done, worlds, cells, e, i + 1, j);
  }

  /** One operation, and what it adds to the history. */
  method Record(op: Op, convert: (Value, nat) -> Option<int>, ghost boards: set<Board>,
                ghost worlds: seq<World>, ghost cells: seq<map<Entry, Cell>>)
    returns (done: bool, ghost worlds': seq<World>, ghost cells': seq<map<Entry, Cell>>)
    requires History(boards, worlds, cells) && Grounded(Snapshot(boards)) && op.board in boards
    requires worlds[|worlds| - 1] == Snapshot(boards) && cells[|cells| - 1] == Cells(StoredIn(Snapshot(boards)))
    modifies boards`storage, StoredIn(Snapshot(boards))
    ensures History(boards, worlds', cells')
    ensures worlds' == worlds + [Snapshot(boards)] && cells' == cells + [Cells(StoredIn(Snapshot(boards)))]
    ensures Turn(op, convert, done, worlds[|worlds| - 1], cells[|cells| - 1], Snapshot(boards),
                 Cells(StoredIn(Snapshot(boards))))
    ensures Grounded(Snapshot(boards))
    ensures forall e :: e in StoredIn(Snapshot(boards)) ==> e in old(StoredIn(Snapshot(boards))) || fresh(e)
  {
    hide Resolve, Created, StoredIn, Grounded, OnlyCaches, Grows, Coherent, TypesStay, Closed, Snapshot, Turn;
    ghost var w, was := Snapshot(boards), Cells(StoredIn(Snapshot(boards)));
    done := Step(op, convert, boards, StoredIn(w));
    ghost var w', now := Snapshot(boards), Cells(StoredIn(Snapshot(boards)));
    GrowingKeeps(w, w');
    GroundedKeeps(w, w');
    TurnKeepsTypes(op, convert, done, w, was, w', now);
    HistoryOn(boards, worlds, cells, w', now);
    worlds', cells' := worlds + [w'], cells + [now];
  }

  /** Over every run of operations on any boards, whether they throw or not, `worlds` and `cells` being
      what was stored and what the entries held before the first operation and after each.  The run ends
      as it began, so that another can follow. */
  method Run(ops: seq<Op>, convert: (Value, nat) -> Option<int>,
             ghost boards: set<Board>, ghost entries: set<Entry>)
    returns (done: seq<bool>, ghost worlds: seq<World>, ghost cells: seq<map<Entry, Cell>>)
    requires Closed(boards) && Grounded(Snapshot(boards)) && Coherent(Snapshot(boards))
    requires entries == StoredIn(Snapshot(boards))
    requires forall op :: op in ops ==> op.board in boards
    modifies boards`storage, entries
    ensures History(boards, worlds, cells) && Turns(ops, convert, done, worlds, cells)
    ensures worlds[0] == old(Snapshot(boards)) && cells[0] == old(Cells(entries))
    ensures worlds[|ops|] == Snapshot(boards) && cells[|ops|] == Cells(StoredIn(Snapshot(boards)))
    ensures Grounded(Snapshot(boards)) && Coherent(Snapshot(boards))
    ensures forall e :: e in StoredIn(Snapshot(boards)) ==> e in entries || fresh(e)
  {
    hide Resolve, Cached, Looked, Created, StoredIn, Grounded, OnlyCaches, Grows, Coherent, History, TypesStay;
    hide Turn, Turns;
    done, worlds, cells := [], [Snapshot(boards)], [Cells(entries)];
    HistoryAtFirst(boards, worlds[0], cells[0]);
    NoTurns(convert, worlds, cells);
    for i := 0 to |ops|
      invariant |worlds| == |cells| == i + 1 && History(boards, worlds, cells)
      invariant Turns(ops[..i], convert, done, worlds, cells)
      invariant worlds[0] == old(Snapshot(boards)) && cells[0] == old(Cells(entries))
      invariant worlds[i] == Snapshot(boards) && cells[i] == Cells(StoredIn(Snapshot(boards)))
      invariant Grounded(Snapshot(boards))
      invariant forall e :: e in StoredIn(Snapshot(boards)) ==> e in entries || fresh(e)
    {
      assert ops[i] in ops && ops[..i + 1] == ops[..i] + [ops[i]];
      ghost var worlds0, cells0 := worlds, cells;
      var ok;
      ok, worlds, cells := Record(ops[i], convert, boards, worlds, cells);
      TurnsOn(ops[..i], convert, done, worlds0, cells0, ops[i], ok, worlds[i + 1], cells[i + 1]);
      done := done + [ok];
    }
    assert ops[..|ops|] == ops;
    HistoryIsCoherent(boards, worlds, cells);
  }

  lemma NoTurns(convert: (Value, nat) -> Option<int>, worlds: seq<World>, cells: seq<map<Entry, Cell>>)
    requires |worlds| == |cells| == 1
    ensures Turns([], convert, [], worlds, cells)
  {
  }
}
