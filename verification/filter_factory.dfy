/** The per-thread filter factory as a sequential state machine. Threads
    are abstract keys; `get` creates a scoped filter for a key the first
    time it asks and hands out proxies over it; `close` closes every
    cached filter once. The filters a factory ever created live in
    `filters`, indexed by creation order, so a proxy keeps reaching its
    filter after the factory forgets it. */
module FilterFactories {
  import opened Wrappers
  import opened Expressions
  import opened Errors
  import opened Engine
  import opened ExpressionUtil
  import opened PatternFilters
  import opened ScopedFilters
  import E = Utf8Encoder

  /** What `get` returns: a view of the cached filter with that index. */
  datatype Proxy = Proxy(serial: nat)

  /** `threadFilters` is the per-thread cache, `tracked` the filters whose
      cleanup records are kept alive. */
  datatype Factory<!T, K(==)> = Factory(closed: bool, patterns: seq<T>, mapper: T -> Option<JavaPattern>,
                                       filters: seq<Impl<T>>, threadFilters: map<K, nat>, tracked: set<nat>)

  /** The elements of a list that has no `null` in it. */
  function Present<T>(xs: seq<Option<T>>): (r: Option<seq<T>>)
    ensures r.Some? <==> forall i :: 0 <= i < |xs| ==> xs[i].Some?
    ensures r.Some? ==> |r.value| == |xs| && forall i :: 0 <= i < |xs| ==> Some(r.value[i]) == xs[i]
  {
    if xs == [] then Some([])
    else if xs[0].None? then None
    else match Present(xs[1..])
      case None => None
      case Some(rest) => Some([xs[0].value] + rest)
  }

  /** The constructor: a `null` mapper, a `null` list or a `null` element
      throws, and so does an empty list. */
  function NewFactory<T, K(==)>(patterns: Option<seq<Option<T>>>, mapper: Option<T -> Option<JavaPattern>>)
    : (r: Result<Factory<T, K>, Error>)
    ensures mapper.None? || patterns.None? ==> r == Failure(NullPointer)
    ensures mapper.Some? && patterns.Some? ==>
      ((exists i :: 0 <= i < |patterns.value| && patterns.value[i].None?) ==> r == Failure(NullPointer)) &&
      (patterns.value == [] ==> r == Failure(IllegalArgument))
    ensures r.Success? ==> mapper.Some? && patterns.Some? && |r.value.patterns| == |patterns.value| > 0
    ensures r.Success? ==> forall i :: 0 <= i < |patterns.value| ==> patterns.value[i] == Some(r.value.patterns[i])
    ensures r.Success? ==> !r.value.closed && r.value.filters == [] && r.value.threadFilters == map[] && r.value.tracked == {}
  {
    if mapper.None? || patterns.None? then Failure(NullPointer)
    else match Present(patterns.value)
      case None => Failure(NullPointer)
      case Some(ps) =>
        if ps == [] then Failure(IllegalArgument)
        else Success(Factory(false, ps, mapper.value, [], map[], {}))
  }

  /** The creation failure `get` throws: a compile error is wrapped in a
      runtime exception, anything else passes through. */
  function Wrapped(e: Error): Error {
    if e.CompileError? then FilterCompileFailed(e) else e
  }

  /** get: refused once closed; the key's cached filter if it has one;
      otherwise a new filter is created, tracked and cached for the key.
      A failed creation caches nothing. */
  function Get<T, K(==)>(f: Factory<T, K>, key: K, scratch: Scratch, engines: Engines)
    : (r: (Factory<T, K>, Result<Proxy, Error>))
    ensures f.closed ==> r == (f, Failure(IllegalState))
    ensures !f.closed && key in f.threadFilters ==> r == (f, Success(Proxy(f.threadFilters[key])))
    ensures r.1.Failure? ==> r.0 == f
    ensures !f.closed && key !in f.threadFilters ==>
      match NewImpl(f.patterns, f.mapper, scratch, engines)
      case Failure(e) => r.1 == Failure(Wrapped(e))
      case Success(impl) =>
        r.1 == Success(Proxy(|f.filters|)) &&
        r.0 == f.(filters := f.filters + [impl], threadFilters := f.threadFilters[key := |f.filters|],
                  tracked := f.tracked + {|f.filters|})
  {
    if f.closed then (f, Failure(IllegalState))
    else if key in f.threadFilters then (f, Success(Proxy(f.threadFilters[key])))
    else match NewImpl(f.patterns, f.mapper, scratch, engines)
      case Failure(e) => (f, Failure(Wrapped(e)))
      case Success(impl) =>
        var serial := |f.filters|;
        (f.(filters := f.filters + [impl], threadFilters := f.threadFilters[key := serial],
            tracked := f.tracked + {serial}),
         Success(Proxy(serial)))
  }

  /** close: one-shot. The first call closes every cached filter, then
      empties the cache and the tracking set; later calls do nothing. */
  function Close<T, K(==)>(f: Factory<T, K>): (r: Factory<T, K>)
    ensures r.closed
    ensures f.closed ==> r == f
    ensures !f.closed ==> r.threadFilters == map[] && r.tracked == {}
    ensures r.patterns == f.patterns && |r.filters| == |f.filters|
    ensures !f.closed ==> forall i :: 0 <= i < |f.filters| ==>
      r.filters[i] == if i in f.threadFilters.Values then CloseImpl(f.filters[i]).0 else f.filters[i]
  {
    if f.closed then f
    else
      var filters := seq(|f.filters|, i requires 0 <= i < |f.filters| =>
        if i in f.threadFilters.Values then CloseImpl(f.filters[i]).0 else f.filters[i]);
      Factory(true, f.patterns, f.mapper, filters, map[], {})
  }

  /** filter through a proxy: exactly the delegate's `filter`; the
      delegate's scanner is the only state that changes. */
  function ProxyFilter<T, K(==)>(f: Factory<T, K>, p: Proxy, input: Option<JString>,
                                 scan: (Option<NativeDb>, seq<Byte>, Scratch) -> ScanReply, v: E.Variant)
    : (r: (Factory<T, K>, Result<seq<T>, Error>))
    requires p.serial < |f.filters|
    ensures r.1 == FilterImpl(f.filters[p.serial], input, scan, v).1
    ensures r.0 == f.(filters := f.filters[p.serial := FilterImpl(f.filters[p.serial], input, scan, v).0])
    ensures r.0.closed == f.closed && r.0.threadFilters == f.threadFilters && r.0.tracked == f.tracked
  {
    var (impl, result) := FilterImpl(f.filters[p.serial], input, scan, v);
    (f.(filters := f.filters[p.serial := impl]), result)
  }

  /** close on a proxy: does nothing, so the factory's state is as before. */
  function ProxyClose<T, K(==)>(f: Factory<T, K>, p: Proxy): Factory<T, K> {
    f
  }

  // ----- the factory invariant -----

  /** Every created filter is valid and open exactly while the factory is;
      while open, every created filter is cached for exactly one key and
      tracked; once closed, the cache and the tracking set are empty. */
  ghost predicate Valid<T, K>(f: Factory<T, K>) {
    (forall i :: 0 <= i < |f.filters| ==> ScopedFilters.Valid(f.filters[i]) && (f.filters[i].core.closed <==> f.closed)) &&
    (!f.closed ==>
      f.threadFilters.Values == f.tracked &&
      (forall i: nat :: i in f.tracked <==> i < |f.filters|) &&
      (forall k1, k2 :: k1 in f.threadFilters && k2 in f.threadFilters && k1 != k2 ==>
        f.threadFilters[k1] != f.threadFilters[k2])) &&
    (f.closed ==> f.threadFilters == map[] && f.tracked == {})
  }

  lemma NewFactoryValid<T, K>(patterns: Option<seq<Option<T>>>, mapper: Option<T -> Option<JavaPattern>>)
    requires NewFactory<T, K>(patterns, mapper).Success?
    ensures Valid(NewFactory<T, K>(patterns, mapper).value)
  {
  }

  /** Caching under a new key adds exactly that value. */
  lemma CacheInsertValues<K>(m: map<K, nat>, key: K, n: nat)
    requires key !in m
    ensures m[key := n].Values == m.Values + {n}
  {
    var g := m[key := n];
    forall v | v in g.Values
      ensures v in m.Values + {n}
    {
      var k :| k in g && g[k] == v;
      if k != key {
        assert k in m && m[k] == v;
      }
    }
    forall v | v in m.Values + {n}
      ensures v in g.Values
    {
      if v == n {
        assert g[key] == n;
      } else {
        var k :| k in m && m[k] == v;
        assert g[k] == v;
      }
    }
  }

  /** Caching a new, open, valid filter for a key without one keeps the
      factory invariant. */
  lemma AddFilterValid<T, K>(f: Factory<T, K>, key: K, impl: Impl<T>)
    requires Valid(f) && !f.closed && key !in f.threadFilters
    requires ScopedFilters.Valid(impl) && !impl.core.closed
    ensures Valid(f.(filters := f.filters + [impl], threadFilters := f.threadFilters[key := |f.filters|],
                     tracked := f.tracked + {|f.filters|}))
  {
    var n := |f.filters|;
    var g := f.(filters := f.filters + [impl], threadFilters := f.threadFilters[key := n], tracked := f.tracked + {n});
    CacheInsertValues(f.threadFilters, key, n);
    assert n !in f.tracked;
    forall i | 0 <= i < |g.filters|
      ensures ScopedFilters.Valid(g.filters[i]) && (g.filters[i].core.closed <==> g.closed)
    {
      if i < n {
        assert g.filters[i] == f.filters[i];
      }
    }
    forall k1, k2 | k1 in g.threadFilters && k2 in g.threadFilters && k1 != k2
      ensures g.threadFilters[k1] != g.threadFilters[k2]
    {
      if k1 != key && k2 != key {
        assert f.threadFilters[k1] != f.threadFilters[k2];
      } else if k1 == key {
        assert f.threadFilters[k2] in f.tracked;
      } else {
        assert f.threadFilters[k1] in f.tracked;
      }
    }
  }

  /** `get` keeps the invariant; a new filter joins the cache under a
      serial no other key holds, with exactly one new tracking record. */
  lemma GetValid<T, K>(f: Factory<T, K>, key: K, scratch: Scratch, engines: Engines)
    requires Valid(f)
    ensures Valid(Get(f, key, scratch, engines).0)
    ensures Get(f, key, scratch, engines).1.Success? ==>
      var (g, p) := (Get(f, key, scratch, engines).0, Get(f, key, scratch, engines).1.value);
      key in g.threadFilters && g.threadFilters[key] == p.serial && p.serial < |g.filters| &&
      |g.tracked| == |f.tracked| + (if key in f.threadFilters then 0 else 1)
  {
    if !f.closed && key in f.threadFilters {
      assert f.threadFilters[key] in f.tracked;
    }
    if !f.closed && key !in f.threadFilters && NewImpl(f.patterns, f.mapper, scratch, engines).Success? {
      NewImplValid(f.patterns, f.mapper, scratch, engines);
      AddFilterValid(f, key, NewImpl(f.patterns, f.mapper, scratch, engines).value);
      assert |f.filters| !in f.tracked;
    }
  }

  /** The same key gets the same filter again, without creating anything. */
  lemma GetSameKeySameFilter<T, K>(f: Factory<T, K>, key: K, scratch: Scratch, engines: Engines,
                                       scratch2: Scratch, engines2: Engines)
    requires Get(f, key, scratch, engines).1.Success?
    ensures var g := Get(f, key, scratch, engines).0;
      Get(g, key, scratch2, engines2) == (g, Get(f, key, scratch, engines).1)
  {
  }

  /** Two different keys get two different filters. */
  lemma DistinctKeysDistinctFilters<T, K>(f: Factory<T, K>, k1: K, k2: K,
                                              scratch1: Scratch, engines1: Engines, scratch2: Scratch, engines2: Engines)
    requires Valid(f) && k1 != k2
    requires Get(f, k1, scratch1, engines1).1.Success?
    requires Get(Get(f, k1, scratch1, engines1).0, k2, scratch2, engines2).1.Success?
    ensures Get(f, k1, scratch1, engines1).1.value != Get(Get(f, k1, scratch1, engines1).0, k2, scratch2, engines2).1.value
  {
    var g := Get(f, k1, scratch1, engines1).0;
    GetValid(f, k1, scratch1, engines1);
    GetValid(g, k2, scratch2, engines2);
    var h := Get(g, k2, scratch2, engines2).0;
    assert k1 in h.threadFilters && h.threadFilters[k1] == g.threadFilters[k1];
  }

  /** close keeps the invariant and closes every filter the factory made;
      a second close changes nothing, and `get` refuses from then on. */
  lemma CloseValid<T, K>(f: Factory<T, K>, key: K, scratch: Scratch, engines: Engines)
    requires Valid(f)
    ensures Valid(Close(f))
    ensures forall i :: 0 <= i < |f.filters| ==> Close(f).filters[i].core.closed
    ensures Close(Close(f)) == Close(f)
    ensures Get(Close(f), key, scratch, engines) == (Close(f), Failure(IllegalState))
  {
    CloseClosesAll(f);
  }

  /** Every filter the factory made is cached while it is open, so closing
      the factory closes them all. */
  lemma CloseClosesAll<T, K>(f: Factory<T, K>)
    requires Valid(f)
    ensures Valid(Close(f))
    ensures forall i :: 0 <= i < |f.filters| ==> Close(f).filters[i].core.closed
  {
    if !f.closed {
      forall i | 0 <= i < |f.filters|
        ensures i in f.threadFilters.Values
      {
        assert (i as nat) in f.tracked;
      }
    }
  }

  /** A proxy handed out before the factory closed refuses to filter after. */
  lemma ProxyAfterCloseRefuses<T, K>(f: Factory<T, K>, p: Proxy, input: JString,
                                         scan: (Option<NativeDb>, seq<Byte>, Scratch) -> ScanReply, v: E.Variant)
    requires Valid(f) && p.serial < |f.filters|
    ensures ProxyFilter(Close(f), p, Some(input), scan, v).1 == Failure(IllegalState)
  {
    CloseClosesAll(f);
  }

  /** Closing a proxy leaves its filter open: on an open factory, filtering
      through any proxy afterwards is never refused as closed. */
  lemma ProxyCloseKeepsFilterOpen<T, K>(f: Factory<T, K>, p: Proxy, q: Proxy, input: JString,
                                            scan: (Option<NativeDb>, seq<Byte>, Scratch) -> ScanReply, v: E.Variant)
    requires Valid(f) && !f.closed && p.serial < |f.filters| && q.serial < |f.filters|
    ensures ProxyFilter(ProxyClose(f, p), q, Some(input), scan, v).1 != Failure(IllegalState)
  {
  }
}
