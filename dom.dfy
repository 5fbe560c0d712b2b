/**
 * The part of the document the component registry touches. An element is reduced to the
 * `airkitId` property the handlers write on it and the `ak-init` attribute that
 * `Component.init` sets. The document is a snapshot taken when a pass runs: its elements
 * in tree order, each with its class list at that moment. A class added or removed
 * between two passes shows as the same element with another class list in the next
 * snapshot.
 */
module Dom {

  class Element {
    /** The `airkitId` property; 0 stands for `null`/`undefined`. */
    var airkitId: int
    /** Whether the element carries the attribute `ak-init="true"`. */
    var akInit: bool

    constructor ()
      ensures airkitId == 0 && !akInit
    {
      airkitId := 0;
      akInit := false;
    }
  }

  /** An element of a document snapshot together with its class list. */
  datatype Node = Node(element: Element, classes: set<string>)

  /** The options object of a registration, shared by reference with every component. */
  class Options {
    constructor ()
    {
    }
  }

  /**
   * `document.getElementsByClassName(name)` for one class name: the elements of `doc`
   * that have class `name`, in tree order.
   */
  function MatchList(doc: seq<Node>, name: string): (r: seq<Element>)
    ensures forall e | e in r :: exists n | n in doc :: n.element == e && name in n.classes
    ensures forall n | n in doc && name in n.classes :: n.element in r
    ensures |r| <= |doc|
  {
    if doc == [] then []
    else
      var rest := MatchList(doc[..|doc| - 1], name);
      var n := doc[|doc| - 1];
      assert doc == doc[..|doc| - 1] + [n];
      if name in n.classes then rest + [n.element] else rest
  }

  /** The elements of a document snapshot, as a set. */
  function Elements(doc: seq<Node>): set<Element>
  {
    set n | n in doc :: n.element
  }

  /** The `airkitId` of each of `elems`. */
  ghost function Tags(elems: set<Element>): map<Element, int>
    reads elems`airkitId
  {
    map e | e in elems :: e.airkitId
  }

  /** The tag map of `elems` has exactly their keys, and each maps to its own `airkitId`. */
  lemma TagsLookup(elems: set<Element>)
    ensures Tags(elems).Keys == elems && forall e | e in elems :: Tags(elems)[e] == e.airkitId
  {
  }
}
