/** The one piece of the page the renderers change: an element whose
    children are cleared (`innerHTML = ''`) and then appended to
    (`appendChild`). Only the data each child shows is kept. */
module Dom {

  class Container<T> {
    var items: seq<T>

    constructor ()
      ensures items == []
    {
      items := [];
    }

    method Clear()
      modifies this
      ensures items == []
    {
      items := [];
    }

    method Append(x: T)
      modifies this
      ensures items == old(items) + [x]
    {
      items := items + [x];
    }
  }
}
