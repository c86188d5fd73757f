// The two failure-carrying datatypes every other module uses.
module Wrappers {
  datatype Option<+T> = None | Some(value: T)

  datatype Result<+T, +E> = Ok(value: T) | Err(error: E)

  /** Puts elements already produced in front of a later outcome. */
  function Prepend<T>(front: seq<T>, rest: Option<seq<T>>): Option<seq<T>> {
    match rest
    case None => None
    case Some(more) => Some(front + more)
  }

  lemma PrependTwice<T>(a: seq<T>, b: seq<T>, rest: Option<seq<T>>)
    ensures Prepend(a, Prepend(b, rest)) == Prepend(a + b, rest)
    ensures Prepend([], rest) == rest
  {
    if rest.Some? {
      assert a + (b + rest.value) == a + b + rest.value;
      assert [] + rest.value == rest.value;
    }
  }

  lemma SameCons<T>(a: T, s: seq<T>, b: T, t: seq<T>)
    ensures [a] + s == [b] + t <==> a == b && s == t
    ensures [] != [b] + t
  {
    assert ([a] + s)[0] == a && ([a] + s)[1..] == s;
    assert ([b] + t)[0] == b && ([b] + t)[1..] == t;
  }

  /** The same for an outcome that can fail. */
  function PrependOk<T, E>(front: seq<T>, rest: Result<seq<T>, E>): Result<seq<T>, E> {
    match rest
    case Ok(more) => Ok(front + more)
    case Err(e) => Err(e)
  }

  lemma PrependOkTwice<T, E>(a: seq<T>, b: seq<T>, rest: Result<seq<T>, E>)
    ensures PrependOk(a, PrependOk(b, rest)) == PrependOk(a + b, rest)
    ensures PrependOk([], rest) == rest
  {
    if rest.Ok? {
      assert a + (b + rest.value) == a + b + rest.value;
      assert [] + rest.value == rest.value;
    }
  }

  /** All the values, or `None` as soon as one is missing. */
  function Collect<T>(parts: seq<Option<T>>): Option<seq<T>> {
    if parts == [] then Some([])
    else if parts[0].None? then None
    else Prepend([parts[0].value], Collect(parts[1..]))
  }

  lemma {:induction false} CollectIsAllOrNothing<T>(parts: seq<Option<T>>)
    ensures Collect(parts).Some? <==> forall i :: 0 <= i < |parts| ==> parts[i].Some?
    ensures Collect(parts).Some? ==>
              |Collect(parts).value| == |parts| &&
              forall i :: 0 <= i < |parts| ==> parts[i] == Some(Collect(parts).value[i])
  {
    if parts != [] {
      CollectIsAllOrNothing(parts[1..]);
      assert parts == [parts[0]] + parts[1..];
    }
  }

  /** One more element looked at by a loop that collects. */
  lemma CollectNext<T>(parts: seq<Option<T>>, i: nat, done: seq<T>)
    requires i < |parts| && Collect(parts) == Prepend(done, Collect(parts[i..]))
    ensures Collect(parts) ==
            if parts[i].None? then None else Prepend(done + [parts[i].value], Collect(parts[i + 1..]))
  {
    assert parts[i..][0] == parts[i] && parts[i..][1..] == parts[i + 1..];
    if parts[i].Some? {
      PrependTwice(done, [parts[i].value], Collect(parts[i + 1..]));
    }
  }
}
