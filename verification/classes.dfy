/**
 Class attributes collected along a Python method resolution order.

 A model class is given by its MRO: position 0 is the class itself, the last
 position its root base. Each entry carries the class body's own value of
 the attribute in question (`None` when the body does not define it) and
 that class's own MRO, as positions into the same list. `getattr(cls, name)`
 looks the attribute up along `cls`'s own MRO, so a class that does not
 define it yields the value of its nearest defining ancestor; the
 collectors walk `reversed(model_class.__mro__)` and call `getattr` on each
 class.
 */
module Classes {
  import opened Values
  import OrderedMap

  datatype Cls<A> = Cls(own: Option<A>, mro: seq<nat>)

  type Hierarchy<A> = seq<Cls<A>>

  /** Each class's MRO starts with itself and runs through its bases, which come later in the instance's MRO. */
  predicate WellFormed<A>(h: Hierarchy<A>)
  {
    h != []
    && (forall i :: 0 <= i < |h| ==> |h[i].mro| > 0 && h[i].mro[0] == i)
    && (forall i, k :: 0 <= i < |h| && 0 <= k < |h[i].mro| ==> i <= h[i].mro[k] < |h|)
    && (forall k :: 0 <= k < |h[0].mro| ==> h[0].mro[k] == k) && |h[0].mro| == |h|
  }

  /** The position in `path` of the first class whose body defines the attribute. */
  function FirstDefiner<A>(h: Hierarchy<A>, path: seq<nat>): (r: Option<nat>)
    requires forall k :: 0 <= k < |path| ==> path[k] < |h|
    ensures r.Some? ==> r.value < |path| && h[path[r.value]].own.Some?
                        && forall k :: 0 <= k < r.value ==> h[path[k]].own.None?
    ensures r.None? ==> forall k :: 0 <= k < |path| ==> h[path[k]].own.None?
    decreases |path|
  {
    if path == [] then None
    else if h[path[0]].own.Some? then Some(0)
    else match FirstDefiner(h, path[1..])
      case None => None
      case Some(p) => Some(p + 1)
  }

  /** `getattr(cls, name, None)` for the class at position `i`. */
  function Getattr<A>(h: Hierarchy<A>, i: nat): (r: Option<A>)
    requires WellFormed(h) && i < |h|
    ensures r.Some? <==> exists k :: 0 <= k < |h[i].mro| && h[h[i].mro[k]].own.Some?
  {
    match FirstDefiner(h, h[i].mro)
    case None => None
    case Some(p) => h[h[i].mro[p]].own
  }

  /** A class that defines the attribute itself gets its own value back. */
  lemma GetattrOwn<A>(h: Hierarchy<A>, i: nat)
    requires WellFormed(h) && i < |h| && h[i].own.Some?
    ensures Getattr(h, i) == h[i].own
  {
  }

  /**
   What `getattr` finds was defined by a class at the same or a later MRO
   position, that is, by one the reversed walk has already visited.
   */
  lemma GetattrVisited<A>(h: Hierarchy<A>, i: nat)
    requires WellFormed(h) && i < |h| && Getattr(h, i).Some?
    ensures exists j :: i <= j < |h| && h[j].own.Some? && Getattr(h, i) == h[j].own
  {
    var p := FirstDefiner(h, h[i].mro).value;
    assert h[i].mro[p] >= i;
  }

  /** For the model class itself `getattr` finds the first definer of its whole MRO. */
  lemma GetattrInstance<A>(h: Hierarchy<A>)
    requires WellFormed(h) && Getattr(h, 0).Some?
    ensures exists j :: 0 <= j < |h| && h[j].own.Some? && Getattr(h, 0) == h[j].own
                        && forall j' :: 0 <= j' < j ==> h[j'].own.None?
  {
    var p := FirstDefiner(h, h[0].mro).value;
    assert h[0].mro[p] == p;
    forall j' | 0 <= j' < p ensures h[j'].own.None? {
      assert h[0].mro[j'] == j';
    }
  }

  /** The value each class of the reversed walk contributes, with `dflt` when `getattr` finds nothing. */
  function Walk<A>(h: Hierarchy<A>, dflt: A): (r: seq<A>)
    requires WellFormed(h)
    ensures |r| == |h|
    ensures forall k :: 0 <= k < |h| ==> r[k] == (if Getattr(h, |h| - 1 - k).Some? then Getattr(h, |h| - 1 - k).value else dflt)
  {
    seq(|h|, k requires 0 <= k < |h| =>
      var g := Getattr(h, |h| - 1 - k);
      if g.Some? then g.value else dflt)
  }

  /** The values the class bodies define themselves, base-most first. */
  function OwnValues<A>(h: Hierarchy<A>): (r: seq<A>)
    decreases |h|
  {
    if h == [] then []
    else if h[|h| - 1].own.Some? then [h[|h| - 1].own.value] + OwnValues(h[..|h| - 1])
    else OwnValues(h[..|h| - 1])
  }

  /** A value is among the own values exactly when some class body defines it. */
  lemma {:induction false} OwnValuesMember<A>(h: Hierarchy<A>, x: A)
    ensures x in OwnValues(h) <==> exists j :: 0 <= j < |h| && h[j].own == Some(x)
    decreases |h|
  {
    if h != [] {
      var init := h[..|h| - 1];
      OwnValuesMember(init, x);
      if exists j :: 0 <= j < |init| && init[j].own == Some(x) {
        var j :| 0 <= j < |init| && init[j].own == Some(x);
        assert h[j] == init[j];
      }
      if exists j :: 0 <= j < |h| && h[j].own == Some(x) {
        var j :| 0 <= j < |h| && h[j].own == Some(x);
        if j < |init| {
          assert init[j] == h[j];
        }
      }
    }
  }

  function Flatten<T>(xss: seq<seq<T>>): seq<T>
    decreases |xss|
  {
    if xss == [] then [] else Flatten(xss[..|xss| - 1]) + xss[|xss| - 1]
  }

  lemma {:induction false} FlattenMember<T>(xss: seq<seq<T>>, x: T)
    ensures x in Flatten(xss) <==> exists k :: 0 <= k < |xss| && x in xss[k]
    decreases |xss|
  {
    if xss != [] {
      FlattenMember(xss[..|xss| - 1], x);
      if x in xss[|xss| - 1] {
        assert 0 <= |xss| - 1 < |xss| && x in xss[|xss| - 1];
      }
      if exists k :: 0 <= k < |xss| && x in xss[k] {
        var k :| 0 <= k < |xss| && x in xss[k];
        if k < |xss| - 1 {
          assert xss[..|xss| - 1][k] == xss[k];
        }
      }
    }
  }

  /**
   The list collectors (`attributes.extend(getattr(cls, ..., []))`, and the
   same for `AVAILABLE_SELECTS`, `AVAILABLE_LIGHTS` and `AVAILABLE_SWITCHES`):
   the inherited lists, base-most first.
   */
  function CollectList<T>(h: Hierarchy<seq<T>>): seq<T>
    requires WellFormed(h)
  {
    Flatten(Walk(h, []))
  }

  /**
   An item is collected exactly when some class body lists it: repeating an
   inherited list adds duplicates but never a new item.
   */
  lemma CollectListMember<T>(h: Hierarchy<seq<T>>, x: T)
    requires WellFormed(h)
    ensures x in CollectList(h) <==> exists j :: 0 <= j < |h| && h[j].own.Some? && x in h[j].own.value
  {
    FlattenMember(Walk(h, []), x);
    if x in CollectList(h) {
      CollectedDefined(h, x);
    }
    if exists j :: 0 <= j < |h| && h[j].own.Some? && x in h[j].own.value {
      var j :| 0 <= j < |h| && h[j].own.Some? && x in h[j].own.value;
      DefinedCollected(h, j, x);
    }
  }

  lemma CollectedDefined<T>(h: Hierarchy<seq<T>>, x: T)
    requires WellFormed(h)
    requires exists k :: 0 <= k < |h| && x in Walk(h, [])[k]
    ensures exists j :: 0 <= j < |h| && h[j].own.Some? && x in h[j].own.value
  {
    var w := Walk(h, []);
    var k :| 0 <= k < |h| && x in w[k];
    GetattrVisited(h, |h| - 1 - k);
  }

  lemma DefinedCollected<T>(h: Hierarchy<seq<T>>, j: nat, x: T)
    requires WellFormed(h) && j < |h| && h[j].own.Some? && x in h[j].own.value
    ensures x in Walk(h, [])[|h| - 1 - j]
  {
    GetattrOwn(h, j);
  }

  /**
   The dict collectors (`_collect_available_preset_modes`,
   `_collect_available_speeds`): `update` with each class's table in reversed
   MRO order.
   */
  function CollectTable<K(==), V>(h: Hierarchy<OrderedMap.OMap<K, V>>): (r: OrderedMap.OMap<K, V>)
    requires WellFormed(h)
    ensures OrderedMap.Valid(r)
  {
    OrderedMap.MergeAll(Walk(h, []))
  }

  /**
   The model class's own table (or the one it inherits from its first
   defining ancestor) is applied last, so each of its keys keeps the value
   it gives there.
   */
  lemma CollectTableInstance<K, V>(h: Hierarchy<OrderedMap.OMap<K, V>>, k: K)
    requires WellFormed(h) && Getattr(h, 0).Some? && k in OrderedMap.Keys(Getattr(h, 0).value)
    ensures OrderedMap.Get(CollectTable(h), k) == OrderedMap.GetLast(Getattr(h, 0).value, k)
  {
    var w := Walk(h, []);
    OrderedMap.MergeAllGet(w, k);
    assert w[|w| - 1] == Getattr(h, 0).value;
  }

  /**
   The keys of the collected table are those of the class tables in order
   of first appearance.
   */
  lemma CollectTableKeys<K, V>(h: Hierarchy<OrderedMap.OMap<K, V>>)
    requires WellFormed(h)
    ensures OrderedMap.Keys(CollectTable(h)) == OrderedMap.Dedup(OrderedMap.FlatKeys(Walk(h, [])))
  {
    OrderedMap.MergeAllKeys(Walk(h, []));
  }
}
