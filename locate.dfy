/**
 * `try_find_partial_name`: try a list of candidate link texts in order and
 * return the element found for the first one that resolves. The browser's
 * lookup is the abstract function `find`, `None` standing for the exception
 * it raises when nothing matches.
 */
module Locate {
  import opened Wrappers

  /** Python's `repr` of a list of strings, for plain text without quotes or escapes. */
  function ListRepr(names: seq<string>): string {
    "[" + JoinQuoted(names) + "]"
  }

  function JoinQuoted(names: seq<string>): string {
    if names == [] then ""
    else if |names| == 1 then "'" + names[0] + "'"
    else "'" + names[0] + "', " + JoinQuoted(names[1..])
  }

  function NotFoundMessage(names: seq<string>): string {
    "could not locate element with any of the names " + ListRepr(names)
  }

  method TryFindPartialName<E>(names: seq<string>, find: string -> Option<E>) returns (r: Result<E, string>)
    ensures r.Err? <==> forall i :: 0 <= i < |names| ==> find(names[i]).None?
    ensures r.Err? ==> r.error == NotFoundMessage(names)
    ensures r.Ok? ==> exists i :: 0 <= i < |names| && find(names[i]) == Some(r.value)
                                && forall j :: 0 <= j < i ==> find(names[j]).None?
    ensures forall i :: 0 <= i < |names| && find(names[i]).Some? && (forall j :: 0 <= j < i ==> find(names[j]).None?)
                        ==> r == Ok(find(names[i]).value)
  {
    for i := 0 to |names|
      invariant forall j :: 0 <= j < i ==> find(names[j]).None?
    {
      var element := find(names[i]);
      if element.Some? {
        return Ok(element.value);
      }
    }
    return Err(NotFoundMessage(names));
  }
}
