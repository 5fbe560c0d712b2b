/**
 * The reconciliation pass of a component handler (ComponentHandler.updateComponents)
 * stated on values. Elements are abstracted by a type parameter `E` with identity
 * equality; the heap model in registry.dfy instantiates `E` with its `Element` class.
 *
 *  - `tags` maps an element to its `airkitId` property; an element that is absent from
 *    the map, or mapped to 0, carries no tag (JavaScript's `null`/`undefined`).
 *  - an `Index` is one handler's `components` object with each component replaced by the
 *    element it is bound to, together with the handler's `nextId_` counter.
 */
module Reconcile {

  datatype Index<E> = Index(entries: map<int, E>, next: int)

  /** The key under which a map holds one of its values. */
  lemma KeyOf<V>(m: map<int, V>, v: V) returns (k: int)
    requires v in m.Values
    ensures k in m && m[k] == v
  {
    if forall k' | k' in m :: m[k'] != v {
      assert false;
    }
    k :| k in m && m[k] == v;
  }

  /** The tag an element carries; 0 when it carries none. */
  function TagOf<E>(tags: map<E, int>, e: E): int
  {
    if e in tags then tags[e] else 0
  }

  /**
   * The handler's index invariant: the counter is at least 1, every key was minted
   * before the counter (so it is positive), and the element stored under a key
   * carries that key as its tag.
   */
  predicate Inv<E>(tags: map<E, int>, idx: Index<E>)
  {
    1 <= idx.next &&
    forall k | k in idx.entries :: 1 <= k < idx.next && TagOf(tags, idx.entries[k]) == k
  }

  /** State of a pass after its first loop: new tags, the grown index, the active tag set and
      the elements a component was constructed for, in construction order. */
  datatype Minted<E> = Minted(tags: map<E, int>, index: Index<E>, active: set<int>, created: seq<E>)

  /** One iteration of the first loop: an untagged element gets the next tag and an entry
      under it; every element's tag is recorded as active. */
  function MintOne<E>(e: E, m: Minted<E>): Minted<E>
  {
    var t := TagOf(m.tags, e);
    if t == 0 then
      var id := m.index.next;
      Minted(m.tags[e := id], Index(m.index.entries[id := e], id + 1), m.active + {id}, m.created + [e])
    else
      Minted(m.tags, m.index, m.active + {t}, m.created)
  }

  /** The first loop over the match list, in list order. */
  function Mint<E>(nodes: seq<E>, tags: map<E, int>, idx: Index<E>): Minted<E>
    decreases |nodes|
  {
    if nodes == [] then Minted(tags, idx, {}, [])
    else MintOne(nodes[|nodes| - 1], Mint(nodes[..|nodes| - 1], tags, idx))
  }

  /** The keys whose element's current tag is not active (the filter of the second step). */
  function Doomed<E>(tags: map<E, int>, entries: map<int, E>, active: set<int>): set<int>
  {
    set k | k in entries && TagOf(tags, entries[k]) !in active
  }

  /** The elements stored under `keys`. */
  function Gone<E>(entries: map<int, E>, keys: set<int>): set<E>
  {
    set k | k in keys && k in entries :: entries[k]
  }

  /** `tags` with the tag of the element stored under each of `keys` reset to null. */
  function Cleared<E>(tags: map<E, int>, entries: map<int, E>, keys: set<int>): map<E, int>
  {
    map e | e in tags :: if e in Gone(entries, keys) then 0 else tags[e]
  }

  datatype Outcome<E> = Outcome(tags: map<E, int>, index: Index<E>, created: seq<E>, destroyed: set<int>)

  /** One reconciliation pass of a handler over its current match list `nodes`. */
  function Pass<E>(nodes: seq<E>, tags: map<E, int>, idx: Index<E>): Outcome<E>
  {
    var m := Mint(nodes, tags, idx);
    var d := Doomed(m.tags, m.index.entries, m.active);
    Outcome(Cleared(m.tags, m.index.entries, d), Index(m.index.entries - d, m.index.next), m.created, d)
  }

  lemma TagOfUpdate<E>(tags: map<E, int>, e: E, v: int, x: E)
    ensures TagOf(tags[e := v], x) == if x == e then v else TagOf(tags, x)
  {
  }

  /** Under the invariant the filter of the second step keeps exactly the inactive keys. */
  lemma DoomedKeys<E>(tags: map<E, int>, idx: Index<E>, active: set<int>)
    requires Inv(tags, idx)
    ensures Doomed(tags, idx.entries, active) == idx.entries.Keys - active
  {
    forall k | k in idx.entries ensures k in Doomed(tags, idx.entries, active) <==> k !in active {
      assert TagOf(tags, idx.entries[k]) == k;
    }
  }

  lemma TagOfCleared<E>(tags: map<E, int>, entries: map<int, E>, keys: set<int>, x: E)
    ensures TagOf(Cleared(tags, entries, keys), x) == if x in Gone(entries, keys) then 0 else TagOf(tags, x)
  {
  }

  /**
   * What the first loop does to the index: it keeps the invariant and every entry, and
   * gains one entry per constructed component, under consecutive keys from the counter.
   */
  lemma {:induction false} MintIndexFacts<E>(nodes: seq<E>, tags: map<E, int>, idx: Index<E>)
    requires Inv(tags, idx)
    ensures var m := Mint(nodes, tags, idx);
      && Inv(m.tags, m.index)
      && m.index.next == idx.next + |m.created|
      && (forall k | k in idx.entries :: k in m.index.entries && m.index.entries[k] == idx.entries[k])
      && (forall k :: k in m.index.entries <==> k in idx.entries || idx.next <= k < m.index.next)
      && (forall i | 0 <= i < |m.created| :: m.index.entries[idx.next + i] == m.created[i])
    decreases |nodes|
  {
    if nodes != [] {
      var n := |nodes| - 1;
      var p, e := nodes[..n], nodes[n];
      MintIndexFacts(p, tags, idx);
      var m0 := Mint(p, tags, idx);
      var m := Mint(nodes, tags, idx);
      assert m == MintOne(e, m0);
      if TagOf(m0.tags, e) == 0 {
        forall k | k in m0.index.entries ensures m0.index.entries[k] != e {
          assert TagOf(m0.tags, m0.index.entries[k]) == k;
        }
        forall k | k in m.index.entries ensures 1 <= k < m.index.next && TagOf(m.tags, m.index.entries[k]) == k {
          TagOfUpdate(m0.tags, e, m0.index.next, m.index.entries[k]);
        }
      }
    }
  }

  /**
   * What the first loop does to the tags: it constructs for exactly the untagged matched
   * elements, changes no other element's tag, leaves every matched element tagged, and
   * its active set is exactly the set of the matched elements' tags.
   */
  lemma {:induction false} MintTagFacts<E>(nodes: seq<E>, tags: map<E, int>, idx: Index<E>)
    requires Inv(tags, idx)
    ensures var m := Mint(nodes, tags, idx);
      && (forall e :: e in m.created <==> e in nodes && TagOf(tags, e) == 0)
      && (forall e | e !in m.created :: TagOf(m.tags, e) == TagOf(tags, e))
      && (forall e | e in nodes :: TagOf(m.tags, e) != 0)
      && m.active == set e | e in nodes :: TagOf(m.tags, e)
    decreases |nodes|
  {
    if nodes != [] {
      var n := |nodes| - 1;
      var p, e := nodes[..n], nodes[n];
      assert nodes == p + [e];
      MintTagFacts(p, tags, idx);
      MintIndexFacts(p, tags, idx);
      var m0 := Mint(p, tags, idx);
      var m := Mint(nodes, tags, idx);
      assert m == MintOne(e, m0);
      forall x ensures TagOf(m.tags, x) == if x == e && TagOf(m0.tags, e) == 0 then m0.index.next else TagOf(m0.tags, x) {
        if TagOf(m0.tags, e) == 0 {
          TagOfUpdate(m0.tags, e, m0.index.next, x);
        }
      }
      if TagOf(m0.tags, e) == 0 {
        assert e !in p;
        assert e !in m0.created;
        forall x | x in nodes ensures TagOf(m.tags, x) in m.active {
          if x != e { assert x in p; }
        }
        assert m.active == set x | x in nodes :: TagOf(m.tags, x);
      } else {
        assert m.active == set x | x in nodes :: TagOf(m.tags, x);
      }
    }
  }

  /** The tag the first loop gives the i-th constructed element. */
  lemma MintCreatedTag<E>(nodes: seq<E>, tags: map<E, int>, idx: Index<E>, i: int)
    requires Inv(tags, idx)
    requires 0 <= i < |Mint(nodes, tags, idx).created|
    ensures var m := Mint(nodes, tags, idx);
      m.created[i] in nodes && TagOf(m.tags, m.created[i]) == idx.next + i
  {
    MintIndexFacts(nodes, tags, idx);
    MintTagFacts(nodes, tags, idx);
    var m := Mint(nodes, tags, idx);
    assert idx.next + i in m.index.entries;
  }

  /** A matched element keeps the tag the first loop gave it: it is never cleared. */
  lemma NodesNotCleared<E>(nodes: seq<E>, tags: map<E, int>, idx: Index<E>)
    requires Inv(tags, idx)
    ensures var m := Mint(nodes, tags, idx);
      forall x | x in nodes :: TagOf(Pass(nodes, tags, idx).tags, x) == TagOf(m.tags, x) != 0
  {
    var m := Mint(nodes, tags, idx);
    MintTagFacts(nodes, tags, idx);
    var d := Doomed(m.tags, m.index.entries, m.active);
    forall x | x in nodes ensures TagOf(Cleared(m.tags, m.index.entries, d), x) == TagOf(m.tags, x) {
      TagOfCleared(m.tags, m.index.entries, d, x);
      assert TagOf(m.tags, x) in m.active;
      assert x !in Gone(m.index.entries, d);
    }
  }

  /** The elements a pass strips of their tag are elements of the old index. */
  lemma PassGone<E>(nodes: seq<E>, tags: map<E, int>, idx: Index<E>)
    requires Inv(tags, idx)
    ensures var o := Pass(nodes, tags, idx);
      Gone(Mint(nodes, tags, idx).index.entries, o.destroyed) == Gone(idx.entries, o.destroyed)
  {
    MintIndexFacts(nodes, tags, idx);
    PassKeeps(nodes, tags, idx);
  }

  /** A pass constructs exactly one component for each untagged matched element, under
      consecutive tags from the counter, and none of them is destroyed by the same pass. */
  lemma PassCreates<E>(nodes: seq<E>, tags: map<E, int>, idx: Index<E>)
    requires Inv(tags, idx)
    ensures var o := Pass(nodes, tags, idx);
      && o.index.next == idx.next + |o.created|
      && (forall e :: e in o.created <==> e in nodes && TagOf(tags, e) == 0)
      && (forall i, j | 0 <= i < j < |o.created| :: o.created[i] != o.created[j])
      && (forall i | 0 <= i < |o.created| ::
            o.created[i] in nodes && TagOf(tags, o.created[i]) == 0 &&
            idx.next + i in o.index.entries && o.index.entries[idx.next + i] == o.created[i] &&
            TagOf(o.tags, o.created[i]) == idx.next + i)
  {
    var m := Mint(nodes, tags, idx);
    var d := Doomed(m.tags, m.index.entries, m.active);
    MintIndexFacts(nodes, tags, idx);
    MintTagFacts(nodes, tags, idx);
    NodesNotCleared(nodes, tags, idx);
    forall i | 0 <= i < |m.created|
      ensures m.created[i] in m.created && idx.next + i !in d && TagOf(Cleared(m.tags, m.index.entries, d), m.created[i]) == idx.next + i
    {
      MintCreatedTag(nodes, tags, idx, i);
    }
    forall i, j | 0 <= i < j < |m.created| ensures m.created[i] != m.created[j] {
      MintCreatedTag(nodes, tags, idx, i);
      MintCreatedTag(nodes, tags, idx, j);
    }
  }

  /** An entry of the old index survives a pass exactly when some matched element carries
      its key (in particular when its own element is still matched), and then it is kept
      unchanged; the pass destroys exactly the old entries that do not survive. */
  lemma PassKeeps<E>(nodes: seq<E>, tags: map<E, int>, idx: Index<E>)
    requires Inv(tags, idx)
    ensures var o := Pass(nodes, tags, idx);
      && (forall k | k in idx.entries ::
            (k in o.index.entries <==> exists e :: e in nodes && TagOf(tags, e) == k))
      && (forall k | k in idx.entries && k in o.index.entries :: o.index.entries[k] == idx.entries[k])
      && (forall k | k in idx.entries && idx.entries[k] in nodes :: k in o.index.entries)
      && (forall k :: k in o.destroyed <==> k in idx.entries && k !in o.index.entries)
      && (forall k | k in o.index.entries :: k in idx.entries || idx.next <= k < o.index.next)
  {
    var m := Mint(nodes, tags, idx);
    var d := Doomed(m.tags, m.index.entries, m.active);
    MintIndexFacts(nodes, tags, idx);
    MintTagFacts(nodes, tags, idx);
    forall k | k in idx.entries
      ensures k !in d <==> exists e :: e in nodes && TagOf(tags, e) == k
    {
      if k !in d {
        assert TagOf(m.tags, m.index.entries[k]) == k;
        var e :| e in nodes && TagOf(m.tags, e) == k;
        assert e !in m.created by {
          if e in m.created {
            var i :| 0 <= i < |m.created| && m.created[i] == e;
            MintCreatedTag(nodes, tags, idx, i);
          }
        }
      }
      if exists e :: e in nodes && TagOf(tags, e) == k {
        var e :| e in nodes && TagOf(tags, e) == k;
        assert TagOf(m.tags, e) == k;
      }
    }
    forall k | k in idx.entries && idx.entries[k] in nodes ensures k !in d {
      assert TagOf(tags, idx.entries[k]) == k;
    }
    forall k | k in d ensures k in idx.entries {
      if k !in idx.entries {
        var i := k - idx.next;
        MintCreatedTag(nodes, tags, idx, i);
      }
    }
  }

  /** Tags after a pass: every matched element is tagged, a matched element's existing tag
      is kept, every destroyed entry's element is untagged, and a tag changes only for an
      element that was untagged or was owned by this index. */
  lemma PassTags<E>(nodes: seq<E>, tags: map<E, int>, idx: Index<E>)
    requires Inv(tags, idx)
    ensures var o := Pass(nodes, tags, idx);
      && Inv(o.tags, o.index)
      && (forall e | e in nodes :: TagOf(o.tags, e) != 0)
      && (forall e | e in nodes && TagOf(tags, e) != 0 :: TagOf(o.tags, e) == TagOf(tags, e))
      && (forall k | k in o.destroyed :: k in idx.entries && TagOf(o.tags, idx.entries[k]) == 0)
      && (forall e | TagOf(o.tags, e) != TagOf(tags, e) :: TagOf(tags, e) == 0 || e in idx.entries.Values)
      && (forall k | k in o.index.entries && k !in idx.entries :: TagOf(tags, o.index.entries[k]) == 0)
  {
    var m := Mint(nodes, tags, idx);
    var d := Doomed(m.tags, m.index.entries, m.active);
    MintIndexFacts(nodes, tags, idx);
    MintTagFacts(nodes, tags, idx);
    NodesNotCleared(nodes, tags, idx);
    PassKeeps(nodes, tags, idx);
    var cleared := Cleared(m.tags, m.index.entries, d);
    forall k | k in m.index.entries && k !in d ensures TagOf(cleared, m.index.entries[k]) == k {
      TagOfCleared(m.tags, m.index.entries, d, m.index.entries[k]);
      assert m.index.entries[k] !in Gone(m.index.entries, d);
    }
    forall k | k in d ensures TagOf(cleared, m.index.entries[k]) == 0 {
      TagOfCleared(m.tags, m.index.entries, d, m.index.entries[k]);
    }
    forall e | TagOf(cleared, e) != TagOf(tags, e) ensures TagOf(tags, e) == 0 || e in idx.entries.Values {
      TagOfCleared(m.tags, m.index.entries, d, e);
      if TagOf(tags, e) != 0 && TagOf(m.tags, e) == TagOf(tags, e) {
        var k :| k in d && k in m.index.entries && m.index.entries[k] == e;
        assert k in idx.entries;
      }
    }
    forall k | k in m.index.entries && k !in idx.entries ensures TagOf(tags, m.index.entries[k]) == 0 {
      var i := k - idx.next;
      assert m.index.entries[idx.next + i] == m.created[i];
    }
  }

  /** The `i`-th element a pass creates is in its index under key `idx.next + i`. */
  lemma PassCreatedAt<E>(nodes: seq<E>, tags: map<E, int>, idx: Index<E>, i: int)
    requires Inv(tags, idx) && 0 <= i < |Pass(nodes, tags, idx).created|
    ensures var o := Pass(nodes, tags, idx);
      idx.next + i in o.index.entries && o.index.entries[idx.next + i] == o.created[i]
  {
    PassCreates(nodes, tags, idx);
    var o := Pass(nodes, tags, idx);
    assert TagOf(o.tags, o.created[i]) == idx.next + i;
  }

  /**
   * An element that is in no entry after a pass got no component in it, and it was in
   * the old index exactly when its entry was destroyed; then it lost its tag, and
   * otherwise its tag is what it was.
   */
  lemma PassLeaves<E>(nodes: seq<E>, tags: map<E, int>, idx: Index<E>)
    requires Inv(tags, idx)
    ensures var o := Pass(nodes, tags, idx);
      forall e | e !in o.index.entries.Values ::
        && e !in o.created
        && (e in idx.entries.Values <==> e in Gone(idx.entries, o.destroyed))
        && TagOf(o.tags, e) == if e in idx.entries.Values then 0 else TagOf(tags, e)
  {
    var o := Pass(nodes, tags, idx);
    var m := Mint(nodes, tags, idx);
    forall i | 0 <= i < |o.created| ensures o.created[i] in o.index.entries.Values {
      PassCreatedAt(nodes, tags, idx, i);
    }
    assert forall k | k in idx.entries && k !in o.destroyed :: idx.entries[k] in o.index.entries.Values by {
      PassKeeps(nodes, tags, idx);
      forall k | k in idx.entries && k !in o.destroyed ensures idx.entries[k] in o.index.entries.Values {
        assert o.index.entries[k] == idx.entries[k];
      }
    }
    forall e | e !in o.index.entries.Values && e in idx.entries.Values
      ensures e in Gone(idx.entries, o.destroyed) && TagOf(o.tags, e) == 0
    {
      var k := KeyOf(idx.entries, e);
      assert k in o.destroyed;
      PassTags(nodes, tags, idx);
    }
    forall e | e !in o.index.entries.Values && e !in idx.entries.Values
      ensures TagOf(o.tags, e) == TagOf(tags, e)
    {
      PassGone(nodes, tags, idx);
      MintTagFacts(nodes, tags, idx);
      TagOfCleared(m.tags, m.index.entries, o.destroyed, e);
      assert e !in Gone(m.index.entries, o.destroyed);
    }
  }


  /** The first loop records a tag for each matched element and forgets none. */
  lemma {:induction false} MintKeys<E>(nodes: seq<E>, tags: map<E, int>, idx: Index<E>)
    ensures Mint(nodes, tags, idx).tags.Keys == tags.Keys + (set e | e in nodes)
    decreases |nodes|
  {
    if nodes != [] {
      var n := |nodes| - 1;
      assert nodes == nodes[..n] + [nodes[n]];
      MintKeys(nodes[..n], tags, idx);
    }
  }

  /** A pass is defined on the elements it had tags for and on the matched ones. */
  lemma PassKeys<E>(nodes: seq<E>, tags: map<E, int>, idx: Index<E>)
    ensures Pass(nodes, tags, idx).tags.Keys == tags.Keys + (set e | e in nodes)
  {
    MintKeys(nodes, tags, idx);
  }

  /** A pass over a list whose elements all carry a tag constructs nothing and changes no tag. */
  lemma {:induction false} MintAllTagged<E>(nodes: seq<E>, tags: map<E, int>, idx: Index<E>)
    requires forall e | e in nodes :: TagOf(tags, e) != 0
    ensures Mint(nodes, tags, idx) == Minted(tags, idx, set e | e in nodes :: TagOf(tags, e), [])
    decreases |nodes|
  {
    if nodes != [] {
      var n := |nodes| - 1;
      assert nodes == nodes[..n] + [nodes[n]];
      MintAllTagged(nodes[..n], tags, idx);
      assert (set e | e in nodes :: TagOf(tags, e)) ==
             (set e | e in nodes[..n] :: TagOf(tags, e)) + {TagOf(tags, nodes[n])};
    }
  }

  /** Every entry left after a pass is carried by some matched element. */
  lemma PassEntriesMatched<E>(nodes: seq<E>, tags: map<E, int>, idx: Index<E>)
    requires Inv(tags, idx)
    ensures var o := Pass(nodes, tags, idx);
      forall k | k in o.index.entries :: exists e :: e in nodes && TagOf(o.tags, e) == k
  {
    var o := Pass(nodes, tags, idx);
    PassCreates(nodes, tags, idx);
    PassKeeps(nodes, tags, idx);
    PassTags(nodes, tags, idx);
    forall k | k in o.index.entries ensures exists e :: e in nodes && TagOf(o.tags, e) == k {
      if k in idx.entries {
        var e :| e in nodes && TagOf(tags, e) == k;
        assert TagOf(o.tags, e) == k;
      } else {
        var i := k - idx.next;
        assert 0 <= i < |o.created|;
        assert o.created[i] in nodes && TagOf(o.tags, o.created[i]) == k;
      }
    }
  }

  /** Idempotence: a second pass over the same match list constructs nothing, destroys
      nothing and leaves tags and index as the first pass left them. */
  lemma PassIdempotent<E>(nodes: seq<E>, tags: map<E, int>, idx: Index<E>)
    requires Inv(tags, idx)
    ensures var o := Pass(nodes, tags, idx);
            Pass(nodes, o.tags, o.index) == Outcome(o.tags, o.index, [], {})
  {
    var o := Pass(nodes, tags, idx);
    PassTags(nodes, tags, idx);
    PassEntriesMatched(nodes, tags, idx);
    MintAllTagged(nodes, o.tags, o.index);
    var active := set e | e in nodes :: TagOf(o.tags, e);
    forall k | k in o.index.entries ensures TagOf(o.tags, o.index.entries[k]) in active {
      var e :| e in nodes && TagOf(o.tags, e) == k;
    }
    assert Doomed(o.tags, o.index.entries, active) == {};
    assert Cleared(o.tags, o.index.entries, {}) == o.tags;
    assert o.index.entries - {} == o.index.entries;
  }

  /* ---- A registry fans the pass out to its handlers, in registration order ---- */

  /** The shared tags after every handler's pass, each handler's new index, and what each
      handler's pass constructed and destroyed. */
  datatype Fanned<E> = Fanned(tags: map<E, int>, indexes: seq<Index<E>>, created: seq<seq<E>>, destroyed: seq<set<int>>)

  /** Registry.updateComponents: handler `i` reconciles `lists[i]`, its match list, seeing the
      tags left on the elements by the handlers before it. */
  function Fanout<E>(lists: seq<seq<E>>, tags: map<E, int>, idxs: seq<Index<E>>): (f: Fanned<E>)
    requires |lists| == |idxs|
    ensures |f.indexes| == |f.created| == |f.destroyed| == |lists|
    decreases |lists|
  {
    if lists == [] then Fanned(tags, [], [], [])
    else
      var n := |lists| - 1;
      var f := Fanout(lists[..n], tags, idxs[..n]);
      var o := Pass(lists[n], f.tags, idxs[n]);
      Fanned(o.tags, f.indexes + [o.index], f.created + [o.created], f.destroyed + [o.destroyed])
  }

  predicate AllInv<E>(tags: map<E, int>, idxs: seq<Index<E>>)
  {
    forall i | 0 <= i < |idxs| :: Inv(tags, idxs[i])
  }

  /** No element is owned by two handlers. */
  predicate Disjoint<E(==)>(idxs: seq<Index<E>>)
  {
    forall i, j, k, k' | 0 <= i < |idxs| && 0 <= j < |idxs| && i != j &&
                         k in idxs[i].entries && k' in idxs[j].entries ::
      idxs[i].entries[k] != idxs[j].entries[k']
  }

  /** No element is owned twice by one handler. */
  predicate Injective<E(==)>(idx: Index<E>)
  {
    forall k, k' | k in idx.entries && k' in idx.entries && k != k' :: idx.entries[k] != idx.entries[k']
  }

  /** Under the invariant distinct entries hold distinct elements, since each element
      carries its own entry's key. */
  lemma InvInjective<E>(tags: map<E, int>, idx: Index<E>)
    requires Inv(tags, idx)
    ensures Injective(idx)
  {
    forall k, k' | k in idx.entries && k' in idx.entries && k != k'
      ensures idx.entries[k] != idx.entries[k']
    {
      assert TagOf(tags, idx.entries[k]) == k && TagOf(tags, idx.entries[k']) == k';
    }
  }

  /** One handler's pass keeps every handler's invariant and keeps ownership disjoint:
      it changes only tags of untagged elements and of its own elements, and it adopts
      only untagged ones, which no other handler owns. */
  lemma StepPreserves<E>(nodes: seq<E>, tags: map<E, int>, idxs: seq<Index<E>>, i: int)
    requires AllInv(tags, idxs) && Disjoint(idxs) && 0 <= i < |idxs|
    ensures var o := Pass(nodes, tags, idxs[i]);
      AllInv(o.tags, idxs[i := o.index]) && Disjoint(idxs[i := o.index])
  {
    var o := Pass(nodes, tags, idxs[i]);
    PassTags(nodes, tags, idxs[i]);
    PassKeeps(nodes, tags, idxs[i]);
    var s := idxs[i := o.index];
    forall j | 0 <= j < |s| && j != i ensures Inv(o.tags, s[j]) {
      forall k | k in s[j].entries ensures TagOf(o.tags, s[j].entries[k]) == k {
        var x := s[j].entries[k];
        assert TagOf(tags, x) == k;
        forall k' | k' in idxs[i].entries ensures idxs[i].entries[k'] != x {
          assert s[j] == idxs[j];
        }
        assert x !in idxs[i].entries.Values;
      }
    }
    forall a, b, k, k' | 0 <= a < |s| && 0 <= b < |s| && a != b && k in s[a].entries && k' in s[b].entries
      ensures s[a].entries[k] != s[b].entries[k']
    {
      if a == i && k !in idxs[i].entries {
        assert TagOf(tags, s[a].entries[k]) == 0;
        assert Inv(tags, idxs[b]);
      } else if b == i && k' !in idxs[i].entries {
        assert TagOf(tags, s[b].entries[k']) == 0;
        assert Inv(tags, idxs[a]);
      }
    }
  }

  /** A fan-out over the first |lists| handlers keeps every handler's invariant and keeps
      ownership disjoint; handlers after them are untouched. */
  lemma {:induction false} FanoutPreserves<E>(lists: seq<seq<E>>, tags: map<E, int>, idxs: seq<Index<E>>)
    requires |lists| <= |idxs| && AllInv(tags, idxs) && Disjoint(idxs)
    ensures var f := Fanout(lists, tags, idxs[..|lists|]);
      AllInv(f.tags, f.indexes + idxs[|lists|..]) && Disjoint(f.indexes + idxs[|lists|..])
    decreases |lists|
  {
    if lists == [] {
      assert idxs[0..] == idxs;
    } else {
      var n := |lists| - 1;
      assert idxs[..|lists|][..n] == idxs[..n];
      FanoutPreserves(lists[..n], tags, idxs);
      var f0 := Fanout(lists[..n], tags, idxs[..n]);
      var s := f0.indexes + idxs[n..];
      assert s[n] == idxs[n];
      StepPreserves(lists[n], f0.tags, s, n);
      var o := Pass(lists[n], f0.tags, idxs[n]);
      assert s[n := o.index] == (f0.indexes + [o.index]) + idxs[|lists|..];
    }
  }

  /** Prefixes of a prefix. */
  lemma Prefixes<T>(s: seq<T>, n: int, j: int)
    requires 0 <= j < n <= |s|
    ensures s[..n][..j] == s[..j] && s[..n][..j + 1] == s[..j + 1] && s[..n][j] == s[j]
  {
  }

  /** The pass of handler j inside a fan-out is a plain pass over the tags left by the
      handlers before it. */
  lemma {:induction false} FanoutAt<E>(lists: seq<seq<E>>, tags: map<E, int>, idxs: seq<Index<E>>, j: int)
    requires |lists| == |idxs| && 0 <= j < |lists|
    ensures var f := Fanout(lists, tags, idxs);
      var o := Pass(lists[j], Fanout(lists[..j], tags, idxs[..j]).tags, idxs[j]);
      && f.indexes[j] == o.index && f.created[j] == o.created && f.destroyed[j] == o.destroyed
      && Fanout(lists[..j + 1], tags, idxs[..j + 1]).tags == o.tags
    decreases |lists|
  {
    var n := |lists| - 1;
    var f := Fanout(lists, tags, idxs);
    var f0 := Fanout(lists[..n], tags, idxs[..n]);
    var o := Pass(lists[n], f0.tags, idxs[n]);
    assert f == Fanned(o.tags, f0.indexes + [o.index], f0.created + [o.created], f0.destroyed + [o.destroyed]);
    if j < n {
      FanoutAt(lists[..n], tags, idxs[..n], j);
      Prefixes(lists, n, j);
      Prefixes(idxs, n, j);
      assert f.indexes[j] == f0.indexes[j];
      assert f.created[j] == f0.created[j];
      assert f.destroyed[j] == f0.destroyed[j];
    } else {
      assert lists[..j + 1] == lists && idxs[..j + 1] == idxs;
      assert lists[..j] == lists[..n] && idxs[..j] == idxs[..n];
    }
  }

  /**
   * The handlers' passes one after another, stated without recursion: `outs[j]` is the
   * pass of handler j over match list `lists[j]`, run on the tags `ts[j]` that the
   * handlers before it left, and `ts[j + 1]` is what it leaves. Only the first |outs|
   * handlers have run.
   */
  predicate Chained<E>(lists: seq<seq<E>>, idxs: seq<Index<E>>, ts: seq<map<E, int>>, outs: seq<Outcome<E>>)
  {
    && |lists| == |outs| <= |idxs| && |ts| == |outs| + 1
    && forall j {:trigger outs[j]} | 0 <= j < |outs| ::
         outs[j] == Pass(lists[j], ts[j], idxs[j]) && ts[j + 1] == outs[j].tags
  }

  /** Running the next handler extends a chain. */
  lemma ChainedSnoc<E>(lists: seq<seq<E>>, idxs: seq<Index<E>>, ts: seq<map<E, int>>, outs: seq<Outcome<E>>, nodes: seq<E>, o: Outcome<E>)
    requires Chained(lists, idxs, ts, outs) && |outs| < |idxs|
    requires o == Pass(nodes, ts[|outs|], idxs[|outs|])
    ensures Chained(lists + [nodes], idxs, ts + [o.tags], outs + [o])
  {
    var n := |outs|;
    forall j | 0 <= j < n + 1
      ensures (outs + [o])[j] == Pass((lists + [nodes])[j], (ts + [o.tags])[j], idxs[j])
      ensures (ts + [o.tags])[j + 1] == (outs + [o])[j].tags
    {
      if j < n {
        assert (outs + [o])[j] == outs[j] && (lists + [nodes])[j] == lists[j] && (ts + [o.tags])[j] == ts[j];
      }
    }
  }

  /** A chain of passes is the fan-out over the same match lists. */
  lemma {:induction false} ChainedFanout<E>(lists: seq<seq<E>>, idxs: seq<Index<E>>, ts: seq<map<E, int>>, outs: seq<Outcome<E>>)
    requires Chained(lists, idxs, ts, outs)
    ensures var f := Fanout(lists, ts[0], idxs[..|lists|]);
      && f.tags == ts[|lists|]
      && forall j | 0 <= j < |lists| ::
           f.indexes[j] == outs[j].index && f.created[j] == outs[j].created && f.destroyed[j] == outs[j].destroyed
    decreases |lists|
  {
    if lists != [] {
      var n := |lists| - 1;
      assert Chained(lists[..n], idxs, ts[..n + 1], outs[..n]);
      ChainedFanout(lists[..n], idxs, ts[..n + 1], outs[..n]);
      var f0 := Fanout(lists[..n], ts[0], idxs[..n]);
      assert idxs[..|lists|][..n] == idxs[..n];
      var o := Pass(lists[n], f0.tags, idxs[n]);
      assert o == outs[n];
      var f := Fanout(lists, ts[0], idxs[..|lists|]);
      assert f == Fanned(o.tags, f0.indexes + [o.index], f0.created + [o.created], f0.destroyed + [o.destroyed]);
      forall j | 0 <= j < |lists|
        ensures f.indexes[j] == outs[j].index && f.created[j] == outs[j].created && f.destroyed[j] == outs[j].destroyed
      {
        if j < n {
          assert outs[..n][j] == outs[j];
        }
      }
    }
  }

  /** When every match list draws on the elements `tags` covers, so does the fan-out. */
  lemma {:induction false} FanoutKeys<E>(lists: seq<seq<E>>, tags: map<E, int>, idxs: seq<Index<E>>)
    requires |lists| == |idxs| && forall i, e | 0 <= i < |lists| && e in lists[i] :: e in tags
    ensures Fanout(lists, tags, idxs).tags.Keys == tags.Keys
    decreases |lists|
  {
    if lists != [] {
      var n := |lists| - 1;
      FanoutKeys(lists[..n], tags, idxs[..n]);
      PassKeys(lists[n], Fanout(lists[..n], tags, idxs[..n]).tags, idxs[n]);
    }
  }

  /** The tag is one property shared by all handlers: when two consecutive handlers both
      match an element, the later one counts the tag the earlier one left and constructs
      nothing for it. */
  lemma LaterHandlerSkipsTagged<E>(lists: seq<seq<E>>, tags: map<E, int>, idxs: seq<Index<E>>, i: int, e: E)
    requires |lists| == |idxs| && AllInv(tags, idxs) && Disjoint(idxs)
    requires 0 <= i && i + 1 < |lists| && e in lists[i] && e in lists[i + 1]
    ensures e !in Fanout(lists, tags, idxs).created[i + 1]
  {
    assert idxs[..i + 1][..i] == idxs[..i];
    FanoutPreserves(lists[..i], tags, idxs);
    FanoutPreserves(lists[..i + 1], tags, idxs);
    FanoutAt(lists, tags, idxs, i);
    FanoutAt(lists, tags, idxs, i + 1);
    var t0 := Fanout(lists[..i], tags, idxs[..i]).tags;
    var t1 := Fanout(lists[..i + 1], tags, idxs[..i + 1]).tags;
    assert (Fanout(lists[..i], tags, idxs[..i]).indexes + idxs[i..])[i] == idxs[i];
    assert (Fanout(lists[..i + 1], tags, idxs[..i + 1]).indexes + idxs[i + 1..])[i + 1] == idxs[i + 1];
    PassTags(lists[i], t0, idxs[i]);
    PassCreates(lists[i + 1], t1, idxs[i + 1]);
  }

  /**
   * Each handler counts its own tags from 1 while the tag is one shared property, so two
   * elements can carry the same tag. Element 1 has classes `x` and `y` and element 2 only
   * `y`; handler 0 is registered for `x` and handler 1 for `y`. The first fan-out tags
   * element 1 with 1 for handler 0 and element 2 with 1 for handler 1. After element 2
   * loses class `y`, handler 1's component for it survives the next fan-out, because
   * element 1, still matched, carries the same tag.
   */
  lemma SharedTagCollision()
    ensures var idle := Index(map[], 1);
      var f1 := Fanout([[1], [1, 2]], map[], [idle, idle]);
      // In the second fan-out element 2 no longer has class `y`.
      var f2 := Fanout([[1], [1]], f1.tags, f1.indexes);
      && f1.tags == map[1 := 1, 2 := 1]
      && f1.indexes == [Index(map[1 := 1], 2), Index(map[1 := 2], 2)]
      && f2.indexes[1].entries == map[1 := 2]
      && f2.destroyed[1] == {}
  {
    var idle: Index<int> := Index(map[], 1);
    // First fan-out, handler 0 over [1].
    var a := Mint([1], map[], idle);
    assert [1][..0] == [];
    assert a == Minted(map[1 := 1], Index(map[1 := 1], 2), {1}, [1]);
    assert Doomed(a.tags, a.index.entries, a.active) == {};
    var t1 := Cleared(a.tags, a.index.entries, {});
    assert t1 == map[1 := 1];
    var p0 := Pass([1], map[], idle);
    assert p0.tags == map[1 := 1] && p0.index == Index(map[1 := 1], 2);
    // Handler 1 over [1, 2].
    var b := Mint([1, 2], t1, idle);
    assert [1, 2][..1] == [1];
    assert Mint([1], t1, idle) == Minted(t1, idle, {1}, []);
    assert b == Minted(map[1 := 1, 2 := 1], Index(map[1 := 2], 2), {1}, [2]);
    assert Doomed(b.tags, b.index.entries, b.active) == {};
    assert Cleared(b.tags, b.index.entries, {}) == map[1 := 1, 2 := 1];
    var p1 := Pass([1, 2], t1, idle);
    assert p1.tags == map[1 := 1, 2 := 1] && p1.index == Index(map[1 := 2], 2);
    var lists1: seq<seq<int>> := [[1], [1, 2]];
    assert lists1[..1] == [[1]] && [idle, idle][..1] == [idle];
    assert Fanout([[1]], map[], [idle]).tags == map[1 := 1];
    // Second fan-out: handler 0 changes nothing.
    var t2 := map[1 := 1, 2 := 1];
    var i0 := Index(map[1 := 1], 2);
    var i1 := Index(map[1 := 2], 2);
    var c := Mint([1], t2, i0);
    assert c == Minted(t2, i0, {1}, []);
    assert Doomed(t2, i0.entries, {1}) == {};
    assert Cleared(t2, i0.entries, {}) == t2;
    assert Pass([1], t2, i0) == Outcome(t2, i0, [], {});
    // Handler 1 matches only element 1, whose tag 1 is also the key of element 2's entry.
    var d := Mint([1], t2, i1);
    assert d == Minted(t2, i1, {1}, []);
    assert Doomed(t2, i1.entries, {1}) == {};
    assert Cleared(t2, i1.entries, {}) == t2;
    assert Pass([1], t2, i1) == Outcome(t2, i1, [], {});
    var lists2: seq<seq<int>> := [[1], [1]];
    assert lists2[..1] == [[1]] && [i0, i1][..1] == [i0];
    assert Fanout([[1]], t2, [i0]).tags == t2;
  }

  /**
   * A fan-out is not idempotent, and can leave a matched element without a component.
   * Element 1 first has only class `y`: handler 1 (registered second, for `y`) tags it
   * 1. Then its class becomes `x`: handler 0 (for `x`) finds it tagged, counts tag 1 as
   * active and constructs nothing, and handler 1, which no longer matches it, destroys
   * its component and clears the tag. Only a further fan-out over the same match lists
   * constructs handler 0's component.
   */
  lemma MovedElementOrphaned()
    ensures var idle := Index(map[], 1);
      var f1 := Fanout([[], [1]], map[], [idle, idle]);
      var f2 := Fanout([[1], []], f1.tags, f1.indexes);
      var f3 := Fanout([[1], []], f2.tags, f2.indexes);
      && f1.tags == map[1 := 1] && f1.indexes == [idle, Index(map[1 := 1], 2)]
      && f2.created == [[], []] && f2.destroyed == [{}, {1}] && f2.tags == map[1 := 0]
      && f2.indexes == [idle, Index(map[], 2)]
      && f3.created == [[1], []]
  {
    OrphanAdopted();
    OrphanDropped();
    OrphanReadopted();
  }

  /** First fan-out of `MovedElementOrphaned`: handler 1 adopts element 1. */
  lemma OrphanAdopted()
    ensures var idle := Index(map[], 1);
      Fanout([[], [1]], map[], [idle, idle]) ==
        Fanned(map[1 := 1], [idle, Index(map[1 := 1], 2)], [[], [1]], [{}, {}])
  {
    var idle: Index<int> := Index(map[], 1);
    var e0: seq<int> := [];
    assert Pass(e0, map[], idle) == Outcome(map[], idle, [], {});
    assert [1][..0] == [];
    assert Mint([1], map[], idle) == Minted(map[1 := 1], Index(map[1 := 1], 2), {1}, [1]);
    assert Doomed(map[1 := 1], map[1 := 1], {1}) == {};
    assert Cleared(map[1 := 1], map[1 := 1], {}) == map[1 := 1];
    assert map[1 := 1] - {} == map[1 := 1];
    assert Pass([1], map[], idle) == Outcome(map[1 := 1], Index(map[1 := 1], 2), [1], {});
    var lists: seq<seq<int>> := [[], [1]];
    assert lists[..1] == [e0] && [idle, idle][..1] == [idle];
    assert Fanout([e0], map[], [idle]) == Fanned(map[], [idle], [[]], [{}]);
  }

  /** Second fan-out: handler 0 counts the tag handler 1 gave, handler 1 drops its entry. */
  lemma OrphanDropped()
    ensures var idle := Index(map[], 1);
      Fanout([[1], []], map[1 := 1], [idle, Index(map[1 := 1], 2)]) ==
        Fanned(map[1 := 0], [idle, Index(map[], 2)], [[], []], [{}, {1}])
  {
    var idle: Index<int> := Index(map[], 1);
    var e0: seq<int> := [];
    var t1 := map[1 := 1];
    var i1 := Index(map[1 := 1], 2);
    assert [1][..0] == [];
    assert Mint([1], t1, idle) == Minted(t1, idle, {1}, []);
    assert Doomed(t1, idle.entries, {1}) == {};
    assert Cleared(t1, idle.entries, {}) == t1;
    assert Pass([1], t1, idle) == Outcome(t1, idle, [], {});
    assert Doomed(t1, i1.entries, {}) == {1};
    assert Gone(i1.entries, {1}) == {1};
    assert Cleared(t1, i1.entries, {1}) == map[1 := 0];
    assert Pass(e0, t1, i1) == Outcome(map[1 := 0], Index(map[], 2), [], {1});
    var lists: seq<seq<int>> := [[1], []];
    assert lists[..1] == [[1]] && [idle, i1][..1] == [idle];
  }

  /** Third fan-out: handler 0 finds element 1 untagged and adopts it. */
  lemma OrphanReadopted()
    ensures var idle := Index(map[], 1);
      Fanout([[1], []], map[1 := 0], [idle, Index(map[], 2)]).created == [[1], []]
  {
    var idle: Index<int> := Index(map[], 1);
    var t2 := map[1 := 0];
    var i2 := Index(map[], 2);
    assert [1][..0] == [];
    assert Mint([1], t2, idle) == Minted(map[1 := 1], Index(map[1 := 1], 2), {1}, [1]);
    var lists: seq<seq<int>> := [[1], []];
    assert lists[..1] == [[1]] && [idle, i2][..1] == [idle];
  }

}
