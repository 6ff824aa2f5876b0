/**
 * Vocabulary shared by every request handler: optional request fields,
 * JavaScript truthiness of a string field, HTTP-style replies, and the
 * deterministic stand-ins for the document store's lookups and queries.
 */
module Common {

  datatype Option<+T> = None | Some(value: T)

  /** A document identifier (an ObjectId in the store). */
  type Id = nat

  /** A clock reading; the clock is an input of each handler that reads it. */
  type Time = int

  /**
   * A request field that is a string or absent. JavaScript treats the
   * absent value and the empty string as falsy and every other string as
   * truthy, which is what `!field` tests in the handlers.
   */
  predicate Truthy(s: Option<string>) {
    s.Some? && s.value != ""
  }

  /** `a || b` on a string field that falls back to a stored value. */
  function OrElse(s: Option<string>, fallback: string): (r: string)
    ensures Truthy(s) ==> r == s.value
    ensures !Truthy(s) ==> r == fallback
  {
    if Truthy(s) then s.value else fallback
  }

  /** The body of a login request, read by both login handlers. */
  datatype LoginBody = LoginBody(email: Option<string>, password: Option<string>)

  /** The reply a handler sends: a success status with a body, or an error status with its message. */
  datatype Response<+T> = Ok(status: nat, body: T) | Err(status: nat, message: string)

  /** The outcome of a chain of early-return validation checks. */
  datatype Check = Pass | Reject(status: nat, message: string)

  /** A total order on ids: first by `key`, ties broken by the id itself. */
  predicate Before(key: Id -> int, x: Id, y: Id) {
    key(x) < key(y) || (key(x) == key(y) && x <= y)
  }

  lemma {:induction false} EarliestExists(s: set<Id>, key: Id -> int)
    requires s != {}
    ensures exists x :: x in s && forall y :: y in s ==> Before(key, x, y)
    decreases |s|
  {
    var z :| z in s;
    if s == {z} {
      assert forall y :: y in s ==> y == z;
    } else {
      var rest := s - {z};
      EarliestExists(rest, key);
      var x :| x in rest && forall y :: y in rest ==> Before(key, x, y);
      if Before(key, x, z) {
        assert forall y :: y in s ==> Before(key, x, y);
      } else {
        forall y | y in s ensures Before(key, z, y) {
          if y != z { assert Before(key, x, y); }
        }
      }
    }
  }

  /**
   * The elements of `s` in ascending (key, id) order. Queries that the
   * store answers in natural order use the id as the key (insertion order);
   * a query sorted on a field uses that field.
   */
  function SortBy(s: set<Id>, key: Id -> int): (r: seq<Id>)
    ensures |r| == |s|
    ensures forall i :: 0 <= i < |r| ==> r[i] in s
    ensures forall x :: x in s ==> x in r
    ensures forall i, j :: 0 <= i < j < |r| ==> Before(key, r[i], r[j]) && r[i] != r[j]
    decreases |s|
  {
    if s == {} then []
    else
      EarliestExists(s, key);
      var x :| x in s && forall y :: y in s ==> Before(key, x, y);
      [x] + SortBy(s - {x}, key)
  }

  /** The key of a query without a sort: all keys tie, so records come in ascending id (insertion) order. */
  function InsertionOrder(id: Id): int { 0 }

  /** The records of an unsorted query, in natural order. */
  function InNaturalOrder(s: set<Id>): (r: seq<Id>)
    ensures |r| == |s|
    ensures forall x :: x in r <==> x in s
    ensures forall i, j :: 0 <= i < j < |r| ==> r[i] < r[j]
  {
    SortBy(s, InsertionOrder)
  }

  /** The smallest key of `m` whose record satisfies `p`: the first match in natural order. */
  function Least<T>(m: map<Id, T>, p: T -> bool): (r: Option<Id>)
    ensures r.Some? <==> exists id :: id in m && p(m[id])
    ensures r.Some? ==> r.value in m && p(m[r.value])
    ensures r.Some? ==> forall id :: id in m && p(m[id]) ==> r.value <= id
  {
    var s := set id | id in m && p(m[id]);
    assert forall id :: id in m && p(m[id]) ==> id in s;
    if s == {} then None
    else
      EarliestExists(s, InsertionOrder);
      var x :| x in s && forall y :: y in s ==> Before(InsertionOrder, x, y);
      Some(x)
  }
}
