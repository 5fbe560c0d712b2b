/**
 * The component registry: a `ComponentHandler` per registration keeps an index from tag to
 * live component and reconciles it against its current match list; the `Registry` holds
 * the handlers and fans every pass out to them in registration order.
 *
 * Every handler pass is proved to compute `Reconcile.Pass` on the abstract state (the tags
 * of the elements involved and the handler's index), and a registry pass to compute
 * `Reconcile.Fanout`; the properties of the pass are lemmas of module Reconcile.
 */
module ComponentRegistry {
  import opened Dom
  import opened ComponentBase
  import Reconcile

  lemma NonEmpty(s: set<int>)
    requires s != {}
    ensures exists k :: k in s
  {
    if forall k :: k !in s {
      assert false;
    }
  }

  lemma MoveOne(done: set<int>, rest: set<int>, all: set<int>, k: int)
    requires done + rest == all && done !! rest && k in rest
    ensures (done + {k}) + (rest - {k}) == all && (done + {k}) !! (rest - {k})
    ensures |rest - {k}| < |rest|
  {
  }

  /** A destroyed component: its element and options references are dropped. */
  ghost predicate Dead(c: Component)
    reads c
  {
    c.element == null && c.options == null && c.stage == Destroyed
  }

  /** An element no handler marks: untagged and without `ak-init`. */
  ghost predicate Unmarked(e: Element)
    reads e
  {
    e.airkitId == 0 && !e.akInit
  }

  /** A destroyed component and its element. */
  ghost predicate Retired(c: Component, e: Element)
    reads c, e
  {
    Unmarked(e) && Dead(c)
  }

  /** No component and no element appears in the indexes of two handlers. */
  ghost predicate Unshared(cs: seq<map<int, Component>>, os: seq<map<int, Element>>)
  {
    && |cs| == |os|
    && (forall j, j', k, k' | 0 <= j < |cs| && 0 <= j' < |cs| && j != j' && k in cs[j] && k' in cs[j'] ::
          cs[j][k] != cs[j'][k'])
    && (forall j, j', k, k' | 0 <= j < |os| && 0 <= j' < |os| && j != j' && k in os[j] && k' in os[j'] ::
          os[j][k] != os[j'][k'])
  }

  /** Destroying an index retires every component and every element it held. */
  lemma AllRetired(c: map<int, Component>, o: map<int, Element>)
    requires forall k | k in c :: k in o && Retired(c[k], o[k])
    requires o.Keys <= c.Keys
    ensures forall x | x in c.Values :: Dead(x)
    ensures forall e | e in o.Values :: Unmarked(e)
  {
    forall x | x in c.Values ensures Dead(x) {
      var k := Reconcile.KeyOf(c, x);
    }
    forall e | e in o.Values ensures Unmarked(e) {
      var k := Reconcile.KeyOf(o, e);
    }
  }

  /** Everything some map of `ms` holds is in `acc` when every map's values are. */
  lemma Covered<V>(ms: seq<map<int, V>>, acc: set<V>, all: set<V>)
    requires forall j | 0 <= j < |ms| :: ms[j].Values <= acc
    requires forall x | x in all :: exists j | 0 <= j < |ms| :: x in ms[j].Values
    ensures all <= acc
  {
  }

  /** Unshared indexes hold disjoint sets of components and of elements. */
  lemma ApartValues(cs: seq<map<int, Component>>, os: seq<map<int, Element>>, i: int)
    requires Unshared(cs, os) && 0 <= i < |cs|
    ensures forall j | 0 <= j < |cs| && j != i ::
              cs[j].Values !! cs[i].Values && os[j].Values !! os[i].Values
  {
    forall j | 0 <= j < |cs| && j != i
      ensures cs[j].Values !! cs[i].Values && os[j].Values !! os[i].Values
    {
      forall c | c in cs[j].Values ensures c !in cs[i].Values {
        var k := Reconcile.KeyOf(cs[j], c);
        forall k' | k' in cs[i] ensures cs[i][k'] != c {
        }
      }
      forall e | e in os[j].Values ensures e !in os[i].Values {
        var k := Reconcile.KeyOf(os[j], e);
        forall k' | k' in os[i] ensures os[i][k'] != e {
        }
      }
    }
  }

  /** `h` is live and valid and still holds components `c` on elements `o`. */
  ghost predicate Holds(h: Handler, c: map<int, Component>, o: map<int, Element>)
    reads h, h.components.Values, h.owned.Values
  {
    h.Valid() && !h.disposed && h.components == c && h.owned == o
  }

  /** `h` is disposed and its index is empty. */
  ghost predicate Spent(h: Handler)
    reads h
  {
    h.disposed && h.components == map[] && h.owned == map[]
  }

  /** A handler none of whose state is written, and whose elements keep their tag and
      `ak-init`, stays valid. */
  twostate lemma Bystander(g: Handler)
    requires old(g.Valid()) && unchanged(g)
    requires forall k | k in g.components :: unchanged(g.components[k])
    requires forall k | k in g.owned :: g.owned[k].airkitId == k && g.owned[k].akInit
    ensures g.Valid()
  {
  }

  /** A handler that still holds `c` and `o` when neither it, nor its components, nor
      its elements were written. */
  twostate lemma Carry(new g: Handler, new c: map<int, Component>, new o: map<int, Element>)
    requires old(allocated(g)) && old(allocated(c)) && old(allocated(o))
    requires old(Holds(g, c, o)) && unchanged(g)
    requires forall x | x in c.Values :: old(allocated(x)) && unchanged(x)
    requires forall e | e in o.Values :: old(allocated(e)) && unchanged(e)
    ensures Holds(g, c, o)
  {
    forall k | k in g.components ensures unchanged(g.components[k]) {
      assert g.components[k] in c.Values;
    }
    forall k | k in g.owned ensures g.owned[k].airkitId == k && g.owned[k].akInit {
      assert g.owned[k] in o.Values;
    }
    Bystander(g);
  }

  class Handler {
    const className: string
    const options: Options
    /** The `components` object: tag => component. */
    var components: map<int, Component>
    /** `nextId_`: the tag to give the next untagged element. */
    var nextId: int
    /** Set by `Destroy`, which nulls the live node list and the index. */
    var disposed: bool
    /** The element each indexed component is bound to. */
    ghost var owned: map<int, Element>

    /**
     * The index invariant: each entry's component is initialised, bound to the element
     * `owned` records and to the handler's options, and that element carries the entry's
     * key, which is positive and below the counter.
     */
    ghost predicate Valid()
      reads this, components.Values, owned.Values
    {
      && components.Keys == owned.Keys
      && 1 <= nextId
      && (forall k | k in owned :: 1 <= k < nextId && owned[k].airkitId == k && owned[k].akInit)
      && (forall k | k in components ::
            && components[k].element == owned[k]
            && components[k].options == options
            && components[k].stage == Inited)
    }

    /** The handler's index as module Reconcile sees it. */
    ghost function Abstract(): Reconcile.Index<Element>
      reads this
    {
      Reconcile.Index(owned, nextId)
    }

    lemma ValidInv(elems: set<Element>)
      requires Valid() && owned.Values <= elems
      ensures Reconcile.Inv(Tags(elems), Abstract())
    {
      forall k | k in owned ensures Reconcile.TagOf(Tags(elems), owned[k]) == k {
        assert owned[k] in owned.Values;
      }
    }

    /** A registration's handler starts with an empty index and the counter at 1. */
    constructor (className: string, options: Options)
      ensures this.className == className && this.options == options
      ensures components == map[] && owned == map[] && nextId == 1 && !disposed
      ensures Valid()
    {
      this.className := className;
      this.options := options;
      components := map[];
      nextId := 1;
      disposed := false;
      owned := map[];
    }

    /**
     * destroyComponent_: deletes the entry under the element's tag, resets the tag to
     * null, then destroys the component.
     */
    method DestroyComponent(c: Component)
      requires Valid() && c.element != null
      requires c.element.airkitId in components && components[c.element.airkitId] == c
      modifies `components, `owned, c, c.element`airkitId, c.element`akInit
      ensures Valid()
      ensures components == old(components) - {old(c.element.airkitId)}
      ensures owned == old(owned) - {old(c.element.airkitId)}
      ensures Retired(c, old(c.element))
    {
      ghost var k := c.element.airkitId;
      ghost var e := c.element;
      assert e == owned[k] && e.airkitId == k;
      components := components - {c.element.airkitId};
      owned := owned - {k};
      forall k' | k' in owned ensures owned[k'] != e {
        assert owned[k'].airkitId == k';
      }
      c.element.airkitId := 0;
      c.Destroy();
    }

    /**
     * The `forEach` over the components filed under `keys`, in an arbitrary order; the
     * final state does not depend on the order.
     */
    method DestroyComponents(keys: set<int>)
      requires Valid() && keys <= components.Keys
      modifies `components, `owned, Reconcile.Gone(components, keys)
      modifies Reconcile.Gone(owned, keys)`airkitId, Reconcile.Gone(owned, keys)`akInit
      ensures Swept(old(components), old(owned), keys)
    {
      ghost var c0 := components;
      ghost var o0 := owned;
      var rest := keys;
      ghost var done: set<int> := {};
      while rest != {}
        invariant done + rest == keys && done !! rest
        invariant Swept(c0, o0, done)
        decreases |rest|
      {
        NonEmpty(rest);
        var k :| k in rest;
        SweepOne(c0, o0, done, k);
        MoveOne(done, rest, keys, k);
        rest := rest - {k};
        done := done + {k};
      }
      assert done == keys;
    }

    /** The sweep so far: the entries under `done` are gone from the index and retired. */
    ghost predicate Swept(c0: map<int, Component>, o0: map<int, Element>, done: set<int>)
      reads this, components.Values, owned.Values, c0.Values, o0.Values
    {
      && Valid()
      && components == c0 - done && owned == o0 - done
      && (forall k | k in done :: k in c0 && k in o0 && Retired(c0[k], o0[k]))
    }

    /** One step of the sweep: destroys the component under `k`. */
    method SweepOne(ghost c0: map<int, Component>, ghost o0: map<int, Element>,
                    ghost done: set<int>, k: int)
      requires Swept(c0, o0, done) && k in components
      modifies `components, `owned, components[k], {owned[k]}`airkitId, {owned[k]}`akInit
      ensures Swept(c0, o0, done + {k})
    {
      var c := components[k];
      ghost var e := owned[k];
      assert c.element == e && e.airkitId == k;
      forall j | j in done ensures c0[j] != c && o0[j] != e {
      }
      DestroyComponent(c);
      assert c0 - (done + {k}) == c0 - done - {k};
      assert o0 - (done + {k}) == o0 - done - {k};
    }

    /**
     * The first loop so far has reached state `m`: the index is `m`'s,
     * every element of `D` carries `m`'s tag, `active` is `m`'s active set, and an element
     * of `D` carries `ak-init` when it did at the start (`init0`) or got a component.
     */
    ghost predicate Tracks(D: set<Element>, m: Reconcile.Minted<Element>, active: set<int>,
                           init0: map<Element, bool>)
      reads this, components.Values, owned.Values, D`airkitId, D`akInit
    {
      && Valid() && owned.Values <= D
      && Tags(D) == m.tags && Abstract() == m.index && active == m.active
      && (forall e | e in D :: e in init0 && e.akInit == (e in m.created || init0[e]))
    }

    /**
     * The body of the first loop for an untagged element: tags it with the counter's value,
     * advances the counter, and files a new initialised component for it under the tag.
     */
    method Adopt(e: Element)
      requires Valid() && e.airkitId == 0
      modifies `components, `owned, `nextId, e`airkitId, e`akInit
      ensures Valid()
      ensures e.airkitId == old(nextId) && nextId == old(nextId) + 1 && e.akInit
      ensures owned == old(owned)[e.airkitId := e]
      ensures e.airkitId !in old(components) && components.Keys == old(components).Keys + {e.airkitId}
      ensures forall k | k in old(components) :: components[k] == old(components[k])
      ensures fresh(components[e.airkitId])
    {
      forall k | k in owned ensures owned[k] != e {
      }
      e.airkitId := nextId;
      nextId := nextId + 1;
      var c := new Component(e, options);
      c.Init();
      components := components[e.airkitId := c];
      owned := owned[e.airkitId := e];
    }

    /** One iteration of the first loop, for the matched element `e`. */
    method InitOne(e: Element, ghost D: set<Element>, ghost m: Reconcile.Minted<Element>,
                   active: set<int>, ghost init0: map<Element, bool>) returns (active': set<int>)
      requires Tracks(D, m, active, init0) && e in D
      modifies `components, `owned, `nextId, {e}`airkitId, {e}`akInit
      ensures Tracks(D, Reconcile.MintOne(e, m), active', init0)
      ensures forall k | k in old(components) :: k in components && components[k] == old(components[k])
      ensures forall k | k in components && k !in old(components) :: fresh(components[k])
    {
      ghost var t0 := Tags(D);
      if e.airkitId == 0 {
        Adopt(e);
        assert Tags(D) == t0[e := e.airkitId];
      }
      active' := active + {e.airkitId};
    }

    /**
     * The first loop of `updateComponents`: walks the match list in order, gives each
     * untagged element the next tag, constructs and initialises a component for it and
     * files it under the tag; every element's tag is collected in `active`. `D` is any set
     * of elements holding the match list and the index's elements.
     */
    method InitNew(nodes: seq<Element>, ghost D: set<Element>) returns (active: set<int>)
      requires Valid() && owned.Values <= D && (forall e | e in nodes :: e in D)
      modifies `components, `owned, `nextId, D`airkitId, D`akInit
      ensures Tracks(D, Reconcile.Mint(nodes, old(Tags(D)), old(Abstract())), active,
                     old(map e | e in D :: e.akInit))
      ensures forall k | k in old(components) :: k in components && components[k] == old(components[k])
      ensures forall k | k in components && k !in old(components) :: fresh(components[k])
    {
      ghost var T0 := Tags(D);
      ghost var I0 := Abstract();
      ghost var init0 := map e | e in D :: e.akInit;
      ValidInv(D);
      active := {};
      var i := 0;
      while i < |nodes|
        invariant 0 <= i <= |nodes|
        invariant Tracks(D, Reconcile.Mint(nodes[..i], T0, I0), active, init0)
        invariant forall k | k in old(components) :: k in components && components[k] == old(components[k])
        invariant forall k | k in components && k !in old(components) :: fresh(components[k])
      {
        ghost var m0 := Reconcile.Mint(nodes[..i], T0, I0);
        assert nodes[..i + 1][..i] == nodes[..i];
        ghost var m1 := Reconcile.MintOne(nodes[i], m0);
        assert Reconcile.Mint(nodes[..i + 1], T0, I0) == m1;
        active := InitOne(nodes[i], D, m0, active, init0);
        assert Tracks(D, m1, active, init0);
        i := i + 1;
      }
      assert nodes[..i] == nodes;
    }

    /**
     * The state after a pass with outcome `o`: the index is `o`'s, every element of `D`
     * carries `o`'s tag, and an element of `D` carries `ak-init` when it got a component,
     * or when it had it before (`init0`) and was not stripped as an element of the old
     * index `entries0`.
     */
    ghost predicate Reflects(o: Reconcile.Outcome<Element>, D: set<Element>,
                             entries0: map<int, Element>, init0: map<Element, bool>)
      reads this, components.Values, owned.Values, D`airkitId, D`akInit
    {
      && Valid() && Abstract() == o.index
      && (forall e | e in D :: e.airkitId == Reconcile.TagOf(o.tags, e))
      && (forall e | e in D :: e in init0 &&
            e.akInit == if e in Reconcile.Gone(entries0, o.destroyed) then false
                        else e in o.created || init0[e])
    }

    /** The filter of the second step: the keys whose component's element carries an
        inactive tag. */
    method Inactive(active: set<int>) returns (doomed: set<int>)
      requires Valid()
      ensures doomed == components.Keys - active
    {
      doomed := set k | k in components && components[k].element.airkitId !in active;
      forall k ensures k in doomed <==> k in components && k !in active {
        if k in components {
          assert components[k].element == owned[k];
        }
      }
    }

    /**
     * The second step of `updateComponents`, after the first loop over `nodes`: destroys
     * every component whose element's tag is not active.
     */
    method Sweep(active: set<int>, ghost D: set<Element>, ghost nodes: seq<Element>,
                 ghost T0: map<Element, int>, ghost I0: Reconcile.Index<Element>,
                 ghost init0: map<Element, bool>)
      requires Reconcile.Inv(T0, I0) && Tracks(D, Reconcile.Mint(nodes, T0, I0), active, init0)
      modifies `components, `owned, Reconcile.Gone(components, Reconcile.Pass(nodes, T0, I0).destroyed)
      modifies D`airkitId, D`akInit
      ensures var o := Reconcile.Pass(nodes, T0, I0);
        Swept(old(components), old(owned), o.destroyed) && Reflects(o, D, I0.entries, init0)
    {
      ghost var m := Reconcile.Mint(nodes, T0, I0);
      ValidInv(D);
      Reconcile.DoomedKeys(m.tags, m.index, m.active);
      Reconcile.PassGone(nodes, T0, I0);
      var doomed := Inactive(active);
      ghost var o1 := owned;
      TagsLookup(D);
      DestroyComponents(doomed);
      forall e | e in D
        ensures e.airkitId == Reconcile.TagOf(Reconcile.Cleared(m.tags, m.index.entries, doomed), e)
        ensures e.akInit == if e in Reconcile.Gone(m.index.entries, doomed) then false
                            else e in m.created || init0[e]
      {
        Reconcile.TagOfCleared(m.tags, m.index.entries, doomed, e);
        if e in Reconcile.Gone(o1, doomed) {
          var k :| k in doomed && k in o1 && o1[k] == e;
        }
      }
    }

    /**
     * updateComponents: one reconciliation pass over the handler's match list in the
     * document snapshot `doc`. On the abstract state (the tags of the elements `D`, which
     * hold the document's and the index's elements, and the index) it computes
     * `Reconcile.Pass`; the components it keeps are the same objects, the ones it files
     * are new, and the ones it drops are destroyed together with their elements' tag and
     * `ak-init`.
     */
    method UpdateComponents(doc: seq<Node>, ghost D: set<Element>) returns (ghost o: Reconcile.Outcome<Element>)
      requires Valid() && !disposed && Elements(doc) + owned.Values <= D
      modifies `components, `owned, `nextId, components.Values, D`airkitId, D`akInit
      ensures o == Reconcile.Pass(MatchList(doc, className), old(Tags(D)), old(Abstract()))
      ensures Valid() && Abstract() == o.index && owned.Values <= D
      ensures forall e | e in D :: e.airkitId == Reconcile.TagOf(o.tags, e)
      ensures forall e | e in D ::
                e.akInit == if e in Reconcile.Gone(old(owned), o.destroyed) then false
                            else e in o.created || old(e.akInit)
      ensures forall k | k in o.destroyed :: k in old(components) && Retired(old(components)[k], old(owned)[k])
      ensures forall k | k in components && k in old(components) :: components[k] == old(components)[k]
      ensures forall k | k in components && k !in old(components) :: fresh(components[k])
      ensures forall e | e in D && e !in owned.Values ::
                if e in old(owned.Values) then Unmarked(e)
                else e.airkitId == old(e.airkitId) && e.akInit == old(e.akInit)
    {
      var nodes := MatchList(doc, className);
      ghost var T0, I0 := Tags(D), Abstract();
      ghost var init0: map<Element, bool> := map e | e in D :: e.akInit;
      ValidInv(D);
      var active := InitNew(nodes, D);
      ghost var c1 := components;
      Reconcile.PassKeeps(nodes, T0, I0);
      Reconcile.MintIndexFacts(nodes, T0, I0);
      ghost var o1 := owned;
      o := Reconcile.Pass(nodes, T0, I0);
      forall c | c in Reconcile.Gone(c1, o.destroyed) ensures c in old(components.Values) {
        var k :| k in o.destroyed && k in c1 && c1[k] == c;
        assert old(components)[k] == c;
      }
      Sweep(active, D, nodes, T0, I0, init0);
      forall k | k in o.destroyed ensures k in old(components) && Retired(old(components)[k], old(owned)[k]) {
        assert c1[k] == old(components)[k] && o1[k] == old(owned)[k];
      }
      Reconcile.PassLeaves(nodes, T0, I0);
    }

    /**
     * destroy: destroys every component of the index, then drops the live node list and
     * the index. A disposed handler can run no further pass.
     */
    method Destroy()
      requires Valid() && !disposed
      modifies `components, `owned, `disposed, components.Values
      modifies owned.Values`airkitId, owned.Values`akInit
      ensures disposed && components == map[] && owned == map[] && nextId == old(nextId)
      ensures forall k | k in old(components) :: Retired(old(components)[k], old(owned)[k])
    {
      forall c | c in Reconcile.Gone(components, components.Keys) ensures c in components.Values {
        var k :| k in components && components[k] == c;
      }
      forall e | e in Reconcile.Gone(owned, components.Keys) ensures e in owned.Values {
        var k :| k in owned && owned[k] == e;
      }
      DestroyComponents(components.Keys);
      assert components == map[] && owned == map[];
      disposed := true;
    }
  }

  /** The registry: its handlers in registration order and whether its observer watches
      the document. */
  class Registry {
    var handlers: seq<Handler>
    /** Whether the mutation observer is connected to the document body. */
    var observing: bool
    /** Each handler's index, in registration order. */
    ghost var indexes: seq<Reconcile.Index<Element>>

    /** The elements some handler's index holds. */
    ghost function Owned(): set<Element>
      reads `handlers, handlers
    {
      set i, e | 0 <= i < |handlers| && e in handlers[i].owned.Values :: e
    }

    /** The components some handler's index holds. */
    ghost function Components(): set<Component>
      reads `handlers, handlers
    {
      set i, c | 0 <= i < |handlers| && c in handlers[i].components.Values :: c
    }

    /**
     * Every handler is live and valid, no handler is registered twice, `indexes` mirrors
     * the handlers' indexes, and no element is owned by two handlers.
     */
    ghost predicate Valid()
      reads `handlers, `indexes, handlers, Components(), Owned()
    {
      && |indexes| == |handlers|
      && (forall i | 0 <= i < |handlers| ::
            handlers[i].Valid() && !handlers[i].disposed && handlers[i].Abstract() == indexes[i])
      && (forall i, j | 0 <= i < j < |handlers| :: handlers[i] != handlers[j])
      && Reconcile.Disjoint(indexes)
    }

    /** A new registry has no handlers and its observer is not connected. */
    constructor ()
      ensures handlers == [] && indexes == [] && !observing && Valid()
    {
      handlers := [];
      observing := false;
      indexes := [];
    }

    /**
     * register: appends a handler for `className` with the given options, or with a new
     * empty options object when none is given, and returns the registry for chaining.
     */
    method Register(className: string, options: Options?) returns (r: Registry)
      requires Valid()
      modifies `handlers, `indexes
      ensures r == this && Valid() && observing == old(observing)
      ensures |handlers| == |old(handlers)| + 1 && handlers[..|old(handlers)|] == old(handlers)
      ensures indexes == old(indexes) + [Reconcile.Index(map[], 1)]
      ensures var h := handlers[|old(handlers)|];
        && fresh(h) && h.className == className
        && h.components == map[] && h.nextId == 1 && !h.disposed
        && (options != null ==> h.options == options)
        && (options == null ==> fresh(h.options))
    {
      var opts := options;
      if opts == null {
        opts := new Options();
      }
      var h := new Handler(className, opts);
      handlers := handlers + [h];
      indexes := indexes + [h.Abstract()];
      forall j | 0 <= j < |handlers| - 1 ensures handlers[j].Valid() {
        Bystander(handlers[j]);
      }
      r := this;
    }

    /** Before handler `i`'s pass: every index agrees with the tags of `D`. */
    lemma Apart(i: int, D: set<Element>)
      requires Valid() && 0 <= i < |handlers| && Owned() <= D
      ensures Reconcile.AllInv(Tags(D), indexes)
    {
      forall j | 0 <= j < |indexes| ensures Reconcile.Inv(Tags(D), indexes[j]) {
        handlers[j].ValidInv(D);
      }
    }

    /**
     * The pass of handler `i` inside a registry pass: on the abstract state it is
     * `Reconcile.Pass` over that handler's match list, with the current tags of `D` and
     * the handler's index, and it leaves the registry valid.
     */
    method Visit(i: int, doc: seq<Node>, ghost D: set<Element>) returns (ghost o: Reconcile.Outcome<Element>)
      requires Valid() && 0 <= i < |handlers| && Elements(doc) + Owned() <= D
      modifies {handlers[i]}`components, {handlers[i]}`owned, {handlers[i]}`nextId
      modifies handlers[i].components.Values, D`airkitId, D`akInit, `indexes
      ensures o == Reconcile.Pass(MatchList(doc, handlers[i].className), old(Tags(D)), old(indexes[i]))
      ensures Tags(D) == o.tags && indexes == old(indexes)[i := o.index]
      ensures Valid() && Owned() <= D
      ensures Untouched(this, i)
      ensures Kept(handlers[i].components, old(handlers[i].components)) && Retiring(old(handlers[i].components), o.destroyed)
      ensures forall k | k in handlers[i].components && k !in old(handlers[i].components) :: fresh(handlers[i].components[k])
      ensures Released(this, i, D)
    {
      ghost var nodes := MatchList(doc, handlers[i].className);
      ghost var T0 := Tags(D);
      ghost var c0 := handlers[i].components;
      assert Owned() <= D;
      Apart(i, D);
      o := Delegate(i, doc, D);
      Record(i, o.index);
      Rejoin(this, i, nodes, T0, o, D, c0);
      Handover(this, i, D);
    }

    /** Records handler `i`'s new index. */
    method Record(i: int, ghost x: Reconcile.Index<Element>)
      requires 0 <= i < |indexes|
      modifies `indexes
      ensures indexes == old(indexes)[i := x]
    {
      indexes := indexes[i := x];
    }

    /** Handler `i`'s own `updateComponents`, seen from the registry: it writes nothing
        of any other handler, nor any other handler's components. */
    method Delegate(i: int, doc: seq<Node>, ghost D: set<Element>) returns (ghost o: Reconcile.Outcome<Element>)
      requires Valid() && 0 <= i < |handlers| && Elements(doc) + Owned() <= D
      modifies {handlers[i]}`components, {handlers[i]}`owned, {handlers[i]}`nextId
      modifies handlers[i].components.Values, D`airkitId, D`akInit
      ensures o == Reconcile.Pass(MatchList(doc, handlers[i].className), old(Tags(D)), old(indexes[i]))
      ensures handlers[i].Valid() && handlers[i].Abstract() == o.index && !handlers[i].disposed
      ensures forall e | e in D :: e.airkitId == Reconcile.TagOf(o.tags, e)
      ensures forall e | e in D ::
                e.akInit == if e in Reconcile.Gone(old(handlers[i].owned), o.destroyed) then false
                            else e in o.created || old(e.akInit)
      ensures forall j | 0 <= j < |old(handlers)| && j != i :: unchanged(old(handlers[j]))
      ensures Untouched(this, i)
      ensures forall j, k | 0 <= j < |old(handlers)| && k in old(handlers[j].components) &&
                            old(handlers[j].components[k]) !in old(handlers[i].components.Values) ::
                unchanged(old(handlers[j].components[k]))
      ensures Kept(handlers[i].components, old(handlers[i].components)) && Retiring(old(handlers[i].components), o.destroyed)
      ensures forall k | k in handlers[i].components && k !in old(handlers[i].components) :: fresh(handlers[i].components[k])
      ensures Leaves(handlers[i], D)
    {
      var h := handlers[i];
      o := h.UpdateComponents(doc, D);
      forall j | 0 <= j < |old(handlers)| && j != i ensures unchanged(old(handlers[j])) {
        assert old(handlers[j] != handlers[i]);
      }
    }

    /**
     * One iteration of updateComponents' `forEach`: handler `i`'s pass, appended to the
     * chain of passes of the handlers before it.
     */
    method Step(i: int, doc: seq<Node>, ghost D: set<Element>, ghost X0: seq<Reconcile.Index<Element>>,
                ghost lists: seq<seq<Element>>, ghost ts: seq<map<Element, int>>,
                ghost outs: seq<Reconcile.Outcome<Element>>, ghost cs: seq<map<int, Component>>,
                ghost fin: seq<map<int, Component>>, ghost AE: set<Element>,
                ghost ids0: map<Element, int>, ghost init0: map<Element, bool>)
      returns (ghost lists': seq<seq<Element>>, ghost ts': seq<map<Element, int>>,
               ghost outs': seq<Reconcile.Outcome<Element>>, ghost fin': seq<map<int, Component>>)
      requires Valid() && 0 <= i < |handlers| && Elements(doc) + Owned() <= D
      requires Progress(i, doc, D, X0, lists, ts, outs, cs, fin) && handlers[i].components == cs[i]
      requires forall j | 0 <= j < |cs| && j != i :: cs[j].Values !! cs[i].Values
      requires handlers[i].owned.Values <= AE && D <= ids0.Keys && D <= init0.Keys
      requires Marks(D, AE, ids0, init0)
      modifies {handlers[i]}`components, {handlers[i]}`owned, {handlers[i]}`nextId
      modifies handlers[i].components.Values, D`airkitId, D`akInit, `indexes
      ensures Valid() && Owned() <= D
      ensures Progress(i + 1, doc, D, X0, lists', ts', outs', cs, fin') && ts'[0] == ts[0]
      ensures Untouched(this, i) && fin' == fin + [handlers[i].components]
      ensures forall k | k in handlers[i].components && k !in cs[i] :: fresh(handlers[i].components[k])
      ensures Marks(D, AE, ids0, init0)
    {
      ghost var nodes := MatchList(doc, handlers[i].className);
      ghost var o := Visit(i, doc, D);
      Reconcile.ChainedSnoc(lists, X0, ts, outs, nodes, o);
      lists', ts', outs' := lists + [nodes], ts + [o.tags], outs + [o];
      fin' := fin + [handlers[i].components];
    }

    /**
     * updateComponents: every handler's pass over the document snapshot `doc`, in
     * registration order. On the abstract state it is a chain of `Reconcile.Pass`es, each
     * over one handler's match list and the tags the handlers before it left, starting
     * from the tags of the document's and the indexes' elements (by
     * `Reconcile.ChainedFanout`, the fan-out); the registry stays valid.
     */
    method UpdateComponents(doc: seq<Node>, ghost D: set<Element>, ghost C: set<Component>)
      returns (ghost lists: seq<seq<Element>>, ghost ts: seq<map<Element, int>>, ghost outs: seq<Reconcile.Outcome<Element>>)
      requires Valid() && Elements(doc) + Owned() <= D && Components() <= C
      modifies handlers, C, `indexes, D`airkitId, D`akInit
      ensures Reconcile.Chained(lists, old(indexes), ts, outs) && |outs| == |handlers|
      ensures forall j | 0 <= j < |handlers| :: lists[j] == MatchList(doc, handlers[j].className)
      ensures ts[0] == old(Tags(D)) && ts[|handlers|].Keys == D
      ensures forall e | e in D :: e.airkitId == ts[|handlers|][e]
      ensures Valid() && handlers == old(handlers) && Owned() <= D
      ensures forall j | 0 <= j < |handlers| :: indexes[j] == outs[j].index
      ensures forall j | 0 <= j < |handlers| :: Kept(handlers[j].components, old(handlers[j].components))
      ensures forall j | 0 <= j < |handlers| :: Retiring(old(handlers[j].components), outs[j].destroyed)
      ensures forall j, k | 0 <= j < |handlers| && k in handlers[j].components && k !in old(handlers[j].components) ::
                fresh(handlers[j].components[k])
      ensures forall e | e in D && e !in Owned() ::
                if e in old(Owned()) then Unmarked(e)
                else e.airkitId == old(e.airkitId) && e.akInit == old(e.akInit)
    {
      Disjointed();
      ghost var (cs, os) := Held();
      ghost var AE := Owned();
      ghost var ids0: map<Element, int> := map e | e in D :: e.airkitId;
      ghost var init0: map<Element, bool> := map e | e in D :: e.akInit;
      ghost var fin;
      lists, ts, outs, fin := EachHandler(doc, D, C, cs, os, AE, ids0, init0);
    }

    /**
     * The `forEach` loop of updateComponents: handler after handler, each one's pass
     * (`Step`) over `doc`, with `cs`, `os`, `AE`, `ids0` and `init0` the components, the
     * elements, the owned elements and the elements' tags and flags before the first.
     * Afterwards handler `j` holds `fin[j]`.
     */
    method EachHandler(doc: seq<Node>, ghost D: set<Element>, ghost C: set<Component>,
                 ghost cs: seq<map<int, Component>>, ghost os: seq<map<int, Element>>, ghost AE: set<Element>,
                 ghost ids0: map<Element, int>, ghost init0: map<Element, bool>)
      returns (ghost lists: seq<seq<Element>>, ghost ts: seq<map<Element, int>>,
               ghost outs: seq<Reconcile.Outcome<Element>>, ghost fin: seq<map<int, Component>>)
      requires Valid() && Elements(doc) + Owned() <= D && Components() <= C
      requires |cs| == |os| == |handlers| && AE == Owned() && D <= ids0.Keys && D <= init0.Keys
      requires forall j | 0 <= j < |handlers| :: handlers[j].components == cs[j] && handlers[j].owned == os[j]
      requires forall j, j' | 0 <= j < |handlers| && 0 <= j' < |handlers| && j != j' ::
                 cs[j].Values !! cs[j'].Values && os[j].Values !! os[j'].Values
      requires forall e | e in D :: e.airkitId == ids0[e] && e.akInit == init0[e]
      modifies handlers, C, `indexes, D`airkitId, D`akInit
      ensures Valid() && handlers == old(handlers) && Owned() <= D
      ensures Progress(|handlers|, doc, D, old(indexes), lists, ts, outs, cs, fin) && ts[0] == old(Tags(D))
      ensures forall j, k | 0 <= j < |handlers| && k in fin[j] && k !in cs[j] :: fresh(fin[j][k])
      ensures Marks(D, AE, ids0, init0)
    {
      lists, ts, outs := [], [Tags(D)], [];
      ghost var X0 := indexes;
      fin := [];
      var i := 0;
      while i < |handlers|
        invariant 0 <= i <= |handlers| && Valid() && Owned() <= D
        invariant handlers == old(handlers)
        invariant Progress(i, doc, D, X0, lists, ts, outs, cs, fin) && ts[0] == old(Tags(D))
        invariant forall j | i <= j < |handlers| :: handlers[j].components == cs[j] && handlers[j].owned == os[j]
        invariant forall j, k | 0 <= j < i && k in fin[j] && k !in cs[j] :: fresh(fin[j][k])
        invariant Marks(D, AE, ids0, init0)
      {
        assert handlers[i].components.Values <= C;
        ghost var finL := fin;
        lists, ts, outs, fin := Step(i, doc, D, X0, lists, ts, outs, cs, fin, AE, ids0, init0);
        Accrue(finL, cs, fin[i]);
        i := i + 1;
      }
    }

    /**
     * run: a first pass over `doc`, then the observer starts watching the document body
     * (later passes are the observer's callback, one `UpdateComponents` per batch of
     * mutations).
     */
    method Run(doc: seq<Node>, ghost D: set<Element>, ghost C: set<Component>)
      returns (ghost lists: seq<seq<Element>>, ghost ts: seq<map<Element, int>>, ghost outs: seq<Reconcile.Outcome<Element>>)
      requires Valid() && Elements(doc) + Owned() <= D && Components() <= C
      modifies handlers, C, `indexes, `observing, D`airkitId, D`akInit
      ensures observing
      ensures Reconcile.Chained(lists, old(indexes), ts, outs) && |outs| == |handlers|
      ensures forall j | 0 <= j < |handlers| :: lists[j] == MatchList(doc, handlers[j].className)
      ensures ts[0] == old(Tags(D)) && ts[|handlers|].Keys == D
      ensures forall e | e in D :: e.airkitId == ts[|handlers|][e]
      ensures Valid() && handlers == old(handlers) && Owned() <= D
      ensures forall j | 0 <= j < |handlers| :: indexes[j] == outs[j].index
      ensures forall j | 0 <= j < |handlers| :: Kept(handlers[j].components, old(handlers[j].components))
      ensures forall j | 0 <= j < |handlers| :: Retiring(old(handlers[j].components), outs[j].destroyed)
      ensures forall j, k | 0 <= j < |handlers| && k in handlers[j].components && k !in old(handlers[j].components) ::
                fresh(handlers[j].components[k])
      ensures forall e | e in D && e !in Owned() ::
                if e in old(Owned()) then Unmarked(e)
                else e.airkitId == old(e.airkitId) && e.akInit == old(e.akInit)
    {
      lists, ts, outs := UpdateComponents(doc, D, C);
      Observe();
    }

    /** observer.observe: the mutation observer starts watching the document body. */
    method Observe()
      requires Valid()
      modifies `observing
      ensures observing && Valid() && Owned() == old(Owned())
    {
      observing := true;
    }

    /** The components added to a prefix of the handlers stay new when one more handler's
        new components are appended. */
    twostate lemma Accrue(new fin: seq<map<int, Component>>, cs: seq<map<int, Component>>, new m: map<int, Component>)
      requires |fin| < |cs|
      requires forall j, k | 0 <= j < |fin| && k in fin[j] && k !in cs[j] :: fresh(fin[j][k])
      requires forall k | k in m && k !in cs[|fin|] :: fresh(m[k])
      ensures forall j, k | 0 <= j < |fin| + 1 && k in (fin + [m])[j] && k !in cs[j] :: fresh((fin + [m])[j][k])
    {
    }

    /** The first `i` passes of updateComponents over `doc` are done: handler `j < i` has
        matched its class name in `doc`, recorded its pass's index, kept the components it
        held before (`cs[j]`) that are still matched, and destroyed the rest. */
    ghost predicate Progress(i: int, doc: seq<Node>, D: set<Element>, X0: seq<Reconcile.Index<Element>>,
                             lists: seq<seq<Element>>, ts: seq<map<Element, int>>,
                             outs: seq<Reconcile.Outcome<Element>>, cs: seq<map<int, Component>>,
                             fin: seq<map<int, Component>>)
      reads this, handlers, D, set j, c | 0 <= j < |cs| && c in cs[j].Values :: c
    {
      && 0 <= i <= |handlers| == |indexes| && |X0| == |handlers| && |cs| == |handlers| && |lists| == i
      && (forall j | 0 <= j < i :: lists[j] == MatchList(doc, handlers[j].className))
      && Reconcile.Chained(lists, X0, ts, outs) && Tags(D) == ts[i]
      && (forall j | 0 <= j < i :: indexes[j] == outs[j].index)
      && (forall j | i <= j < |handlers| :: indexes[j] == X0[j])
      && |fin| == i && (forall j | 0 <= j < i :: handlers[j].components == fin[j])
      && (forall j | 0 <= j < i :: Kept(fin[j], cs[j]))
      && (forall j | 0 <= j < i :: Retiring(cs[j], outs[j].destroyed))
    }

    /** Each element of `D` that no handler owns is unmarked if one owned it when `AE` was
        taken, and otherwise keeps the tag `ids0` and the `ak-init` flag `init0` recorded. */
    ghost predicate Marks(D: set<Element>, AE: set<Element>, ids0: map<Element, int>, init0: map<Element, bool>)
      reads this, handlers, D
    {
      forall e | e in D && e !in Owned() ::
        if e in AE then Unmarked(e) else e in ids0 && e in init0 && e.airkitId == ids0[e] && e.akInit == init0[e]
    }

    /** The components and elements each handler held before `Destroy`, in their index
        and the handlers' order. */
    ghost function Held(): (s: (seq<map<int, Component>>, seq<map<int, Element>>))
      reads this, handlers
      ensures |s.0| == |s.1| == |handlers|
      ensures forall j | 0 <= j < |handlers| :: s.0[j] == handlers[j].components && s.1[j] == handlers[j].owned
    {
      (seq(|handlers|, j requires 0 <= j < |handlers| reads this, handlers => handlers[j].components),
       seq(|handlers|, j requires 0 <= j < |handlers| reads this, handlers => handlers[j].owned))
    }

    /** No two handlers' indexes share a component or an element. */
    lemma Disjointed()
      requires Valid()
      ensures forall j, j' | 0 <= j < |handlers| && 0 <= j' < |handlers| && j != j' ::
                Held().0[j].Values !! Held().0[j'].Values && Held().1[j].Values !! Held().1[j'].Values
    {
      Separated();
      var (cs, os) := Held();
      forall j' | 0 <= j' < |handlers| {
        ApartValues(cs, os, j');
      }
    }

    /** No component and no element belongs to two handlers. */
    lemma Separated()
      requires Valid()
      ensures Unshared(Held().0, Held().1)
      ensures forall c | c in Components() :: exists j | 0 <= j < |handlers| :: c in Held().0[j].Values
      ensures forall e | e in Owned() :: exists j | 0 <= j < |handlers| :: e in Held().1[j].Values
    {
      var (cs, os) := Held();
      forall j, j', k, k' | 0 <= j < |cs| && 0 <= j' < |cs| && j != j' && k in cs[j] && k' in cs[j']
        ensures cs[j][k] != cs[j'][k']
      {
        assert cs[j][k].element == indexes[j].entries[k];
        assert cs[j'][k'].element == indexes[j'].entries[k'];
      }
      forall j, j', k, k' | 0 <= j < |os| && 0 <= j' < |os| && j != j' && k in os[j] && k' in os[j']
        ensures os[j][k] != os[j'][k']
      {
        assert os[j][k] == indexes[j].entries[k];
      }
    }

    /**
     * One iteration of destroy's `forEach`: handler `i` destroys its components. The
     * handlers before it are disposed, and the components and elements they held, `dc`
     * and `de`, are destroyed and unmarked; the handlers after it still hold what they
     * held.
     */
    method DestroyAt(i: int, ghost cs: seq<map<int, Component>>, ghost os: seq<map<int, Element>>,
                     ghost dc: set<Component>, ghost de: set<Element>)
      requires 0 <= i < |handlers| == |cs| && Unshared(cs, os)
      requires forall a, b | 0 <= a < b < |handlers| :: handlers[a] != handlers[b]
      requires forall j | i <= j < |handlers| :: Holds(handlers[j], cs[j], os[j])
      requires forall j | i <= j < |handlers| :: cs[j].Values !! dc && os[j].Values !! de
      requires forall j | 0 <= j < i :: Spent(handlers[j])
      requires (forall c | c in dc :: Dead(c)) && (forall e | e in de :: Unmarked(e))
      modifies handlers[i], handlers[i].components.Values
      modifies handlers[i].owned.Values`airkitId, handlers[i].owned.Values`akInit
      ensures forall j | i + 1 <= j < |handlers| :: Holds(handlers[j], cs[j], os[j])
      ensures forall j | i + 1 <= j < |handlers| ::
                cs[j].Values !! dc + cs[i].Values && os[j].Values !! de + os[i].Values
      ensures forall j | 0 <= j < i + 1 :: Spent(handlers[j])
      ensures forall c | c in dc + cs[i].Values :: Dead(c)
      ensures forall e | e in de + os[i].Values :: Unmarked(e)
    {
      var h := handlers[i];
      h.Destroy();
      AllRetired(cs[i], os[i]);
      ApartValues(cs, os, i);
      forall j | i + 1 <= j < |handlers| ensures Holds(handlers[j], cs[j], os[j]) {
        var g := handlers[j];
        assert g != h;
        Carry(g, cs[j], os[j]);
      }
      forall j | 0 <= j < i ensures Spent(handlers[j]) {
        assert handlers[j] != h;
      }
    }

    /**
     * destroy: destroys every handler, empties the handler list and disconnects the
     * observer. Every component any handler held is destroyed and every element one
     * held loses its tag and its `ak-init`.
     */
    method Destroy()
      requires Valid()
      modifies handlers, Components(), Owned()`airkitId, Owned()`akInit, `handlers, `indexes, `observing
      ensures handlers == [] && indexes == [] && !observing && Valid()
      ensures forall j | 0 <= j < |old(handlers)| :: Spent(old(handlers[j]))
      ensures forall c | c in old(Components()) :: Dead(c)
      ensures forall e | e in old(Owned()) :: Unmarked(e)
    {
      Separated();
      ghost var (cs, os) := Held();
      ghost var AC, AE := Components(), Owned();
      ghost var dc: set<Component>, de: set<Element> := {}, {};
      var i := 0;
      while i < |handlers|
        invariant 0 <= i <= |handlers| == |cs| && handlers == old(handlers)
        invariant forall j | i <= j < |handlers| :: Holds(handlers[j], cs[j], os[j])
        invariant forall j | i <= j < |handlers| :: cs[j].Values !! dc && os[j].Values !! de
        invariant forall j | 0 <= j < i :: Spent(handlers[j])
        invariant forall j | 0 <= j < i :: cs[j].Values <= dc && os[j].Values <= de
        invariant (forall c | c in dc :: Dead(c)) && (forall e | e in de :: Unmarked(e))
      {
        DestroyAt(i, cs, os, dc, de);
        dc, de := dc + cs[i].Values, de + os[i].Values;
        i := i + 1;
      }
      Covered(cs, dc, AC);
      Covered(os, de, AE);
      handlers, indexes, observing := [], [], false;
    }
  }

  /** The components of `m` under keys of `c0` are the very objects `c0` holds there. */
  ghost predicate Kept(m: map<int, Component>, c0: map<int, Component>)
  {
    forall k | k in m && k in c0 :: m[k] == c0[k]
  }

  /** Every component `c0` holds under a key of `destroyed` is dead. */
  ghost predicate Retiring(c0: map<int, Component>, destroyed: set<int>)
    reads c0.Values
  {
    forall k | k in destroyed :: k in c0 && Dead(c0[k])
  }

  /** Handler `h`'s pass lets go of elements of `D`: the ones it owned before are unmarked,
      and the others it does not own now are as they were. */
  twostate predicate Leaves(h: Handler, D: set<Element>)
    reads h, D
  {
    forall e | e in D && e !in h.owned.Values ::
      if e in old(h.owned.Values) then Unmarked(e)
      else e.airkitId == old(e.airkitId) && e.akInit == old(e.akInit)
  }

  /** No handler of `r` but handler `i` has another index. */
  twostate predicate Untouched(r: Registry, i: int)
    requires old(allocated(r))
    reads r, r.handlers
  {
    && r.handlers == old(r.handlers)
    && forall j | 0 <= j < |r.handlers| && j != i ::
         r.handlers[j].components == old(r.handlers[j].components) && r.handlers[j].owned == old(r.handlers[j].owned)
  }

  /**
   * After handler `i`'s pass in registry `r`, for the elements of `D` no handler owns
   * any more: the ones handler `i` owned before are unmarked, and the others are as they
   * were; only handler `i`'s elements can have left the registry.
   */
  twostate predicate Released(r: Registry, i: int, D: set<Element>)
    requires old(allocated(r)) && 0 <= i < |old(r.handlers)|
    reads r, r.handlers, D
  {
    && (forall e | e in D && e !in r.Owned() ::
          if e in old(r.handlers[i].owned.Values) then Unmarked(e)
          else e.airkitId == old(e.airkitId) && e.akInit == old(e.akInit))
    && (forall e | e in old(r.Owned()) && e !in r.Owned() :: e in old(r.handlers[i].owned.Values))
  }

  /** A pass of handler `i` that leaves every other handler's elements where they were
      releases from the registry only elements handler `i` owned. */
  twostate lemma Handover(new r: Registry, i: int, new D: set<Element>)
    requires old(allocated(r)) && 0 <= i < |old(r.handlers)| && r.handlers == old(r.handlers)
    requires forall e | e in D :: old(allocated(e))
    requires Untouched(r, i) && Leaves(r.handlers[i], D)
    ensures Released(r, i, D)
  {
    forall e | e in D && e !in r.Owned() ensures e !in r.handlers[i].owned.Values {
    }
    forall e | e in old(r.Owned()) && e !in r.Owned() ensures e in old(r.handlers[i].owned.Values) {
      var j :| 0 <= j < |old(r.handlers)| && e in old(r.handlers[j].owned.Values);
    }
  }

  /** After handler `i`'s pass `p` in registry `r`, which wrote no other handler and no
      component of another handler: the registry is valid again and the tags of `D` are
      `p`'s. */
  twostate lemma Rejoin(new r: Registry, i: int, new nodes: seq<Element>, new T0: map<Element, int>,
                        new p: Reconcile.Outcome<Element>, new D: set<Element>,
                        new c0: map<int, Component>)
    requires old(allocated(r)) && old(r.Valid()) && 0 <= i < |old(r.handlers)| && old(r.Owned()) <= D
    requires forall e | e in D :: old(allocated(e))
    requires Reconcile.AllInv(T0, old(r.indexes)) && T0.Keys == D && forall e | e in nodes :: e in D
    requires p == Reconcile.Pass(nodes, T0, old(r.indexes[i]))
    requires r.handlers == old(r.handlers) && r.indexes == old(r.indexes)[i := p.index]
    requires c0 == old(r.handlers[i].components)
    requires r.handlers[i].Valid() && r.handlers[i].Abstract() == p.index && !r.handlers[i].disposed
    requires forall e | e in D :: e.airkitId == Reconcile.TagOf(p.tags, e)
    requires forall e | e in D ::
               e.akInit == if e in Reconcile.Gone(old(r.handlers[i].owned), p.destroyed) then false
                           else e in p.created || old(e.akInit)
    requires forall j | 0 <= j < |old(r.handlers)| && j != i :: unchanged(old(r.handlers[j]))
    requires forall j, k | 0 <= j < |old(r.handlers)| && k in old(r.handlers[j].components) &&
                           old(r.handlers[j].components[k]) !in c0.Values ::
               unchanged(old(r.handlers[j].components[k]))
    ensures r.Valid() && r.Owned() <= D && Tags(D) == p.tags
  {
    Reconcile.StepPreserves(nodes, T0, old(r.indexes), i);
    Reconcile.PassKeys(nodes, T0, old(r.indexes[i]));
    ghost var o0 := old(r.handlers[i].owned);
    forall j | 0 <= j < |r.handlers| && j != i
      ensures r.handlers[j].Valid() && !r.handlers[j].disposed && r.handlers[j].Abstract() == r.indexes[j]
    {
      var g := r.handlers[j];
      forall k | k in g.components ensures unchanged(g.components[k]) {
        assert old(g.components[k].element) == old(r.indexes[j]).entries[k];
        forall k' | k' in c0 ensures c0[k'] != g.components[k] {
          assert old(c0[k'].element) == old(r.indexes[i]).entries[k'];
        }
      }
      forall k | k in g.owned ensures g.owned[k].airkitId == k && g.owned[k].akInit {
        assert Reconcile.Inv(p.tags, r.indexes[j]);
        assert g.owned[k] in D;
        forall k' | k' in o0 ensures o0[k'] != g.owned[k] {
          assert o0[k'] == old(r.indexes[i]).entries[k'];
        }
      }
      Bystander(g);
    }
    forall j, k | 0 <= j < |r.handlers| && k in r.handlers[j].owned ensures r.handlers[j].owned[k] in D {
      assert Reconcile.Inv(p.tags, r.indexes[j]);
    }
  }
}
