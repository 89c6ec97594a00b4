/** The shape shared by the thought diary and the small-wins list: an
    ordered list of entries keyed by an id, newest first, mirrored into a
    key-value snapshot whenever the list is non-empty. */
module EntryStore {
  import opened Base

  /** `list.filter((e) => e.id !== id)`. */
  function RemoveId<T(==)>(xs: seq<T>, idOf: T -> string, id: string): (r: seq<T>)
    ensures |r| <= |xs|
    ensures forall i :: 0 <= i < |r| ==> r[i] in xs && idOf(r[i]) != id
    ensures forall i :: 0 <= i < |xs| && idOf(xs[i]) != id ==> xs[i] in r
    ensures (forall i :: 0 <= i < |xs| ==> idOf(xs[i]) != id) ==> r == xs
  {
    if xs == [] then []
    else (if idOf(xs[0]) == id then [] else [xs[0]]) + RemoveId(xs[1..], idOf, id)
  }

  /** Removal works piecewise, so the survivors keep their relative order. */
  lemma {:induction false} RemoveIdAppend<T>(a: seq<T>, b: seq<T>, idOf: T -> string, id: string)
    ensures RemoveId(a + b, idOf, id) == RemoveId(a, idOf, id) + RemoveId(b, idOf, id)
    decreases |a|
  {
    if a != [] {
      assert (a + b)[1..] == a[1..] + b;
      RemoveIdAppend(a[1..], b, idOf, id);
    } else {
      assert a + b == b;
    }
  }

  /** Removing the same id a second time changes nothing. */
  lemma RemoveIdIdempotent<T>(xs: seq<T>, idOf: T -> string, id: string)
    ensures RemoveId(RemoveId(xs, idOf, id), idOf, id) == RemoveId(xs, idOf, id)
  {
    var r := RemoveId(xs, idOf, id);
    assert forall i :: 0 <= i < |r| ==> r[i] in r;
  }

  /** Prepending an entry with a fresh id and then removing that id gives
      back the list as it was. */
  lemma PrependThenRemove<T>(x: T, xs: seq<T>, idOf: T -> string)
    requires forall i :: 0 <= i < |xs| ==> idOf(xs[i]) != idOf(x)
    ensures RemoveId([x] + xs, idOf, idOf(x)) == xs
  {
    assert ([x] + xs)[1..] == xs;
  }

  /** The storage effect: the list is written to the snapshot only when it
      is non-empty; an empty list leaves the old snapshot alone. */
  function Persist<T>(stored: Option<seq<T>>, xs: seq<T>): (r: Option<seq<T>>)
    ensures |xs| > 0 ==> r == Some(xs)
    ensures |xs| == 0 ==> r == stored
  {
    if |xs| > 0 then Some(xs) else stored
  }

  /** The loading effect: the snapshot if one exists, otherwise the
      initial empty list.  Storing the list just loaded leaves the
      snapshot as it was, so mounting never rewrites storage. */
  function Load<T>(stored: Option<seq<T>>): (xs: seq<T>)
    ensures stored.Some? ==> stored == Some(xs)
    ensures stored.None? ==> xs == []
    ensures Persist(stored, xs) == stored
  {
    match stored
    case None => []
    case Some(xs) => xs
  }

  /** A non-empty list survives a store-and-reload round trip; an empty
      one is replaced by whatever was stored before. */
  lemma PersistThenLoad<T>(stored: Option<seq<T>>, xs: seq<T>)
    ensures |xs| > 0 ==> Load(Persist(stored, xs)) == xs
    ensures |xs| == 0 ==> Load(Persist(stored, xs)) == Load(stored)
  {
  }
}
