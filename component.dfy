/**
 * The base component: the lifecycle contract (construct, init, destroy) that every
 * handler drives. The lifecycle stage is ghost bookkeeping; the source keeps none.
 */
module ComponentBase {
  import opened Dom

  datatype Lifecycle = Constructed | Inited | Destroyed

  class Component {
    var element: Element?
    var options: Options?
    ghost var stage: Lifecycle

    /** Binds the component to its element and options; touches nothing else. */
    constructor (element: Element, options: Options)
      ensures this.element == element && this.options == options && stage == Constructed
    {
      this.element := element;
      this.options := options;
      stage := Constructed;
    }

    /** Marks the bound element with `ak-init="true"`. A destroyed component has no
        element, so it cannot be initialised again. */
    method Init()
      requires element != null
      modifies `stage, element`akInit
      ensures element == old(element) && options == old(options)
      ensures element.akInit && stage == Inited
    {
      element.akInit := true;
      stage := Inited;
    }

    /** Removes `ak-init` from the bound element, then drops the element and the options. */
    method Destroy()
      requires element != null
      modifies this, element`akInit
      ensures !old(element).akInit
      ensures element == null && options == null && stage == Destroyed
    {
      element.akInit := false;
      element := null;
      options := null;
      stage := Destroyed;
    }
  }
}
