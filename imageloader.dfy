/**
 * The image loader of the lazy-image component: a memo table from an image `src` to the
 * promise of that image's load. A promise is reduced to an object that remembers the
 * `src` it resolves with; the `Image` element, its `load` event and the asynchronous
 * resolution are not modelled.
 */
module ImageLoading {

  /** A load promise; once the image has loaded it resolves with `src`. */
  class Pending {
    const src: string

    constructor (src: string)
      ensures this.src == src
    {
      this.src := src;
    }
  }

  /** The values the promises `ps` resolve with, in order. */
  function Settle(ps: seq<Pending>): (r: seq<string>)
    ensures |r| == |ps| && forall i | 0 <= i < |ps| :: r[i] == ps[i].src
  {
    if ps == [] then [] else Settle(ps[..|ps| - 1]) + [ps[|ps| - 1].src]
  }

  /** The distinct values of `h`, each where it first occurs. */
  function FirstSeen(h: seq<string>): seq<string>
  {
    if h == [] then []
    else
      var d := FirstSeen(h[..|h| - 1]);
      if h[|h| - 1] in d then d else d + [h[|h| - 1]]
  }

  /** `FirstSeen(h)` holds exactly the values of `h`, each once. */
  lemma {:induction false} FirstSeenElements(h: seq<string>)
    ensures forall x :: x in FirstSeen(h) <==> x in h
    ensures forall a, b | 0 <= a < b < |FirstSeen(h)| :: FirstSeen(h)[a] != FirstSeen(h)[b]
    decreases |h|
  {
    if h != [] {
      var p := h[..|h| - 1];
      FirstSeenElements(p);
      assert h == p + [h[|h| - 1]];
    }
  }

  /** Requesting one more `src` adds it at the end unless it was requested before. */
  lemma FirstSeenSnoc(h: seq<string>, src: string)
    ensures FirstSeen(h + [src]) == if src in h then FirstSeen(h) else FirstSeen(h) + [src]
  {
    assert (h + [src])[..|h|] == h;
    FirstSeenElements(h);
  }

  class ImageLoader {
    /** The `promises` object: src => promise. */
    var promises: map<string, Pending>
    /** The keys of `promises` in the order the object enumerates them. */
    var order: seq<string>
    /** Every `src` passed to `load`, in call order. */
    ghost var requested: seq<string>

    /**
     * The srcs with a promise are exactly the srcs requested, enumerated in the order
     * they were first requested, and each promise resolves with its own key.
     */
    ghost predicate Valid()
      reads this
    {
      && order == FirstSeen(requested)
      && (forall s :: s in promises <==> s in requested)
      && (forall s | s in order :: s in promises)
      && (forall s | s in promises :: promises[s].src == s)
    }

    /** A new loader holds no promise. */
    constructor ()
      ensures promises == map[] && order == [] && requested == [] && Valid()
    {
      promises := map[];
      order := [];
      requested := [];
    }

    /**
     * load: the promise already held for `src` when there is one, with nothing changed;
     * otherwise a new promise for `src`, added under `src` and to the end of the
     * enumeration order, every other entry unchanged.
     */
    method Load(src: string) returns (p: Pending)
      requires Valid()
      modifies this
      ensures Valid() && requested == old(requested) + [src] && p.src == src
      ensures src in old(promises) ==> p == old(promises[src]) && promises == old(promises) && order == old(order)
      ensures src !in old(promises) ==>
                fresh(p) && promises == old(promises)[src := p] && order == old(order) + [src]
    {
      FirstSeenSnoc(requested, src);
      FirstSeenElements(requested + [src]);
      if src in promises {
        p := promises[src];
        requested := requested + [src];
        return;
      }
      p := new Pending(src);
      promises := promises[src := p];
      order := order + [src];
      requested := requested + [src];
    }

    /** The promises `wait` hands to `Promise.all`: every held promise, in key order. */
    function Wait(): (r: seq<Pending>)
      requires Valid()
      reads this
      ensures |r| == |order| && forall i | 0 <= i < |order| :: r[i] == promises[order[i]]
    {
      seq(|order|, i requires 0 <= i < |order| && order[i] in promises reads this => promises[order[i]])
    }

    /**
     * The combined promise of `wait` covers every held promise exactly once and resolves
     * with the distinct requested srcs, in the order they were first requested.
     */
    lemma WaitSettles()
      requires Valid()
      ensures Settle(Wait()) == FirstSeen(requested)
      ensures forall p :: p in Wait() <==> p in promises.Values
      ensures forall a, b | 0 <= a < b < |Wait()| :: Wait()[a] != Wait()[b]
    {
      var w := Wait();
      FirstSeenElements(requested);
      forall p | p in promises.Values ensures p in w {
        var s :| s in promises && promises[s] == p;
        var i :| 0 <= i < |order| && order[i] == s;
        assert w[i] == p;
      }
    }
  }
}
