/**
  A generic memoising cache of loaded resources (images, fonts, ...).

  A `ResourceManager` maps owned keys to shared handles on resources that a
  loader produced. `Load` answers a request from the map when a stored key
  equals the probe, and otherwise calls the loader once: a success is wrapped
  in a fresh handle and stored under the owned key converted from the probe,
  a failure is handed back and nothing is stored.

  Keys. The map is probed with a borrowed view of a key. Since the borrowed
  view of an owned key compares equal exactly when the owned keys do, the
  model keys the map by the view type itself. The conversion from a probe to
  the owned key that gets stored is kept explicit (`into`), because the
  load-once guarantee rests on it giving back a key equal to the probe.
*/
module Resources {

  /** The result of a load: a value, or the loader's error message. */
  datatype Result<T> = Ok(value: T) | Err(error: string)

  /** A shared handle on a resource. Handles on the same resource are the same reference. */
  class Rc<R> {
    const value: R

    constructor (value: R)
      ensures this.value == value
    {
      this.value := value;
    }
  }

  /** A loader: from a probe to a resource, or an error message. */
  type Loader<-K, R> = K -> Result<R>

  /** True when converting each probe of `ds` to an owned key gives back a key equal to it. */
  predicate Faithful<K(==)>(into: K -> K, ds: seq<K>)
  {
    forall i | 0 <= i < |ds| :: into(ds[i]) == ds[i]
  }

  /**
    What a cache shows of the work it did: the set of keys it stores and,
    in order, the probes the loader was called with.
  */
  datatype Trace<K> = Trace(keys: set<K>, calls: seq<K>)

  /**
    One load of probe `d`. A stored key equal to `d` answers it without
    calling the loader; otherwise the loader is called once, and only a
    success stores a key: the one converted from `d`.
  */
  function Step<K(==), R>(t: Trace<K>, loader: Loader<K, R>, into: K -> K, d: K): (u: Trace<K>)
    ensures t.keys <= u.keys <= t.keys + {into(d)}
    ensures d in t.keys ==> u == t
    ensures d !in t.keys ==> u.calls == t.calls + [d]
    ensures loader(d).Err? ==> u.keys == t.keys
    ensures d !in t.keys && loader(d).Ok? ==> u.keys == t.keys + {into(d)}
  {
    if d in t.keys then t
    else if loader(d).Ok? then Trace(t.keys + {into(d)}, t.calls + [d])
    else Trace(t.keys, t.calls + [d])
  }

  /** The requests `ds`, served one after the other from `t`. */
  function Serve<K(==), R>(t: Trace<K>, loader: Loader<K, R>, into: K -> K, ds: seq<K>): (u: Trace<K>)
    ensures t.keys <= u.keys
    ensures t.calls <= u.calls && |u.calls| <= |t.calls| + |ds|
    decreases |ds|
  {
    if ds == [] then t
    else Step(Serve(t, loader, into, ds[..|ds| - 1]), loader, into, ds[|ds| - 1])
  }

  /** The requests `ds` are the requests before the last one, followed by it. */
  lemma LastSplit<K>(ds: seq<K>)
    requires ds != []
    ensures ds == ds[..|ds| - 1] + [ds[|ds| - 1]]
  {
  }

  /** A faithful conversion for some requests is faithful for all but the last of them. */
  lemma FaithfulPrefix<K>(into: K -> K, ds: seq<K>)
    requires Faithful(into, ds) && ds != []
    ensures Faithful(into, ds[..|ds| - 1])
  {
  }

  /**
    With a faithful key conversion, the cache ends up storing exactly its
    initial keys and every requested key whose load succeeds.
  */
  lemma {:induction false} StoredKeys<K, R>(t: Trace<K>, loader: Loader<K, R>, into: K -> K, ds: seq<K>)
    requires Faithful(into, ds)
    ensures forall k :: k in Serve(t, loader, into, ds).keys <==> k in t.keys || (k in ds && loader(k).Ok?)
  {
    if ds != [] {
      var p, d := ds[..|ds| - 1], ds[|ds| - 1];
      FaithfulPrefix(into, ds);
      StoredKeys(t, loader, into, p);
      assert into(d) == d by { assert d == ds[|ds| - 1]; }
    }
  }

  /**
    Load once: for a key whose load succeeds, serving any requests with a
    faithful key conversion calls the loader on it exactly once if it is
    requested and not stored already, and never otherwise.
  */
  lemma {:induction false} LoadsOnce<K, R>(t: Trace<K>, loader: Loader<K, R>, into: K -> K, ds: seq<K>, k: K)
    requires Faithful(into, ds)
    requires loader(k).Ok?
    ensures multiset(Serve(t, loader, into, ds).calls)[k]
         == multiset(t.calls)[k] + (if k in t.keys || k !in ds then 0 else 1)
  {
    if ds != [] {
      var p, d := ds[..|ds| - 1], ds[|ds| - 1];
      FaithfulPrefix(into, ds);
      LoadsOnce(t, loader, into, p, k);
      StoredKeys(t, loader, into, p);
      var u := Serve(t, loader, into, p);
      assert k in ds <==> k in p || k == d;
      if d !in u.keys {
        assert multiset(u.calls + [d])[k] == multiset(u.calls)[k] + (if k == d then 1 else 0);
      }
    }
  }

  /**
    No negative caching: with a faithful key conversion, a key whose load
    fails and that is not stored makes every request for it call the loader
    again.
  */
  lemma {:induction false} RetriesFailures<K, R>(t: Trace<K>, loader: Loader<K, R>, into: K -> K, ds: seq<K>, k: K)
    requires Faithful(into, ds)
    requires loader(k).Err? && k !in t.keys
    ensures multiset(Serve(t, loader, into, ds).calls)[k] == multiset(t.calls)[k] + multiset(ds)[k]
  {
    if ds != [] {
      var p, d := ds[..|ds| - 1], ds[|ds| - 1];
      LastSplit(ds);
      FaithfulPrefix(into, ds);
      RetriesFailures(t, loader, into, p, k);
      StoredKeys(t, loader, into, p);
      var u := Serve(t, loader, into, p);
      assert multiset(ds)[k] == multiset(p)[k] + (if k == d then 1 else 0) by {
        assert multiset(ds) == multiset(p) + multiset{d};
      }
      if d !in u.keys {
        assert multiset(u.calls + [d])[k] == multiset(u.calls)[k] + (if k == d then 1 else 0);
      }
    }
  }

  /**
    Why the conversion must give back the probe: when it gives back another
    key, the stored entry never answers the probe, so each of `n` requests
    for it calls the loader again.
  */
  lemma {:induction false} UnfaithfulKeyNeverHits<K, R>(t: Trace<K>, loader: Loader<K, R>, into: K -> K, d: K, n: nat)
    requires into(d) != d && d !in t.keys
    ensures Serve(t, loader, into, seq(n, _ => d)).calls == t.calls + seq(n, _ => d)
    ensures Serve(t, loader, into, seq(n, _ => d)).keys <= t.keys + {into(d)}
  {
    if n > 0 {
      var ds := seq(n, _ => d);
      assert ds[..n - 1] == seq(n - 1, _ => d);
      UnfaithfulKeyNeverHits(t, loader, into, d, n - 1);
      assert t.calls + seq(n, _ => d) == t.calls + seq(n - 1, _ => d) + [d];
    }
  }

  /** The cache of resources loaded by one loader. */
  class ResourceManager<K(==), R> {
    const loader: Loader<K, R>
    var cache: map<K, Rc<R>>
    /** The probes the loader has been called with, in order. */
    ghost var calls: seq<K>

    /** The keys stored and the loader calls made so far. */
    ghost function Abstract(): Trace<K>
      reads this
    {
      Trace(cache.Keys, calls)
    }

    /** Every stored handle holds what the loader produces for its key. */
    ghost predicate Coherent()
      reads this
    {
      forall k | k in cache :: loader(k).Ok? && cache[k].value == loader(k).value
    }

    /** Different keys hold handles on different resources. */
    ghost predicate DistinctHandles()
      reads this
    {
      forall k, k' | k in cache && k' in cache && k != k' :: cache[k] != cache[k']
    }

    /** A manager with an empty cache that loads with `loader`. */
    constructor (loader: Loader<K, R>)
      ensures this.loader == loader
      ensures cache == map[] && calls == []
      ensures Coherent() && DistinctHandles()
    {
      this.loader := loader;
      cache := map[];
      calls := [];
    }

    /**
      Loads the resource for probe `d`, storing it under `into(d)` on a miss.
      A hit hands back the stored handle itself; a failed load hands back the
      loader's error and stores nothing.
    */
    method Load(d: K, into: K -> K) returns (r: Result<Rc<R>>)
      modifies this
      ensures Abstract() == Step(old(Abstract()), loader, into, d)
      ensures d in old(cache) ==> r == Ok(old(cache)[d]) && cache == old(cache)
      ensures d !in old(cache) && loader(d).Err? ==> r == Err(loader(d).error) && cache == old(cache)
      ensures d !in old(cache) && loader(d).Ok? ==>
        && r.Ok? && fresh(r.value) && r.value.value == loader(d).value
        && cache == old(cache)[into(d) := r.value]
      ensures old(DistinctHandles()) ==> DistinctHandles()
      ensures old(Coherent()) && into(d) == d ==>
        && Coherent()
        && (r.Ok? <==> loader(d).Ok?)
        && (r.Ok? ==> r.value.value == loader(d).value)
        && (r.Err? ==> r.error == loader(d).error)
    {
      if d in cache {
        r := Ok(cache[d]);
      } else {
        calls := calls + [d];
        var loaded := loader(d);
        if loaded.Err? {
          return Err(loaded.error);
        }
        var resource := new Rc(loaded.value);
        cache := cache[into(d) := resource];
        r := Ok(resource);
      }
    }

    /**
      A driver asking for the same resource once per frame, for `frames`
      frames, and stopping at the first error. With a faithful conversion,
      all the frames together do the load work of a single load, and every
      frame gets the same handle.
    */
    method LoadEveryFrame(d: K, into: K -> K, frames: nat) returns (handles: seq<Rc<R>>)
      requires into(d) == d
      modifies this
      ensures frames == 0 ==> Abstract() == old(Abstract())
      ensures frames > 0 ==> Abstract() == Step(old(Abstract()), loader, into, d)
      ensures |handles| == frames || (|handles| == 0 && d !in old(cache) && loader(d).Err?)
      ensures forall i | 0 <= i < |handles| :: d in cache && handles[i] == cache[d]
      ensures d in old(cache) ==> cache == old(cache)
      ensures |handles| == 0 ==> cache == old(cache)
      ensures |handles| > 0 ==> cache == old(cache)[d := handles[0]]
      ensures d !in old(cache) && |handles| > 0 ==> fresh(handles[0]) && handles[0].value == loader(d).value
    {
      handles := [];
      var i := 0;
      while i < frames
        invariant i <= frames && |handles| == i
        invariant i == 0 ==> Abstract() == old(Abstract()) && cache == old(cache)
        invariant i > 0 ==> d in cache && Abstract() == Step(old(Abstract()), loader, into, d)
        invariant d in old(cache) ==> cache == old(cache)
        invariant i > 0 ==> cache == old(cache)[d := cache[d]]
        invariant i > 0 && d !in old(cache) ==> fresh(cache[d]) && cache[d].value == loader(d).value
        invariant forall j | 0 <= j < i :: d in cache && handles[j] == cache[d]
      {
        var r := Load(d, into);
        if r.Err? {
          return;
        }
        handles := handles + [r.value];
        i := i + 1;
      }
    }
  }
}
