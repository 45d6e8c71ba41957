/** Name uniqueness within a scope (a school, or the whole table), the
    property the services' 409 checks protect. */
module Uniqueness {

  /** No two rows of `m` in the same scope carry the same name. */
  ghost predicate UniqueWithin<T>(m: map<int, T>, name: T -> string, scope: T -> int) {
    forall j, k :: j in m && k in m && j != k && scope(m[j]) == scope(m[k]) ==> name(m[j]) != name(m[k])
  }

  /** No row of `m` other than the one under `except` shares `x`'s scope and name. */
  ghost predicate FreeFor<T>(m: map<int, T>, name: T -> string, scope: T -> int, except: int, x: T) {
    forall j :: j in m && j != except && scope(m[j]) == scope(x) ==> name(m[j]) != name(x)
  }

  /** Storing a row whose name is free in its scope keeps names unique;
      this covers inserting under a new key and overwriting a row in place. */
  lemma {:induction false} UniquePut<T>(m: map<int, T>, name: T -> string, scope: T -> int, k: int, x: T)
    requires UniqueWithin(m, name, scope)
    requires FreeFor(m, name, scope, k, x)
    ensures UniqueWithin(m[k := x], name, scope)
  {
    var m' := m[k := x];
    forall i, j | i in m' && j in m' && i != j && scope(m'[i]) == scope(m'[j])
      ensures name(m'[i]) != name(m'[j])
    {
      if i == k {
        assert m'[j] == m[j];
      } else if j == k {
        assert m'[i] == m[i];
      } else {
        assert m'[i] == m[i] && m'[j] == m[j];
      }
    }
  }

  /** Removing a row keeps names unique. */
  lemma UniqueRemove<T>(m: map<int, T>, name: T -> string, scope: T -> int, k: int)
    requires UniqueWithin(m, name, scope)
    ensures UniqueWithin(m - {k}, name, scope)
  {
  }
}
