/**
 * The server's score table `estadisticas`, a JavaScript `Map` from display
 * name to points. A `Map` also remembers insertion order, and that order is
 * what `Object.fromEntries` hands to every client, so the table keeps the
 * points by name together with the names in the order they were first set:
 * `set` on a present name updates it where it stands, `set` on a new name
 * appends it, `clear` empties both.
 */
module Ledger {
  import opened Wrappers

  datatype Entry = Entry(name: string, points: nat)

  datatype Table = Table(points: map<string, nat>, order: seq<string>)

  /** Each key once, and the order lists exactly the keys. */
  predicate Valid(t: Table) {
    && (forall i, j :: 0 <= i < j < |t.order| ==> t.order[i] != t.order[j])
    && (forall k :: k in t.points ==> k in t.order)
    && (forall i :: 0 <= i < |t.order| ==> t.order[i] in t.points)
  }

  /** `new Map()` and `estadisticas.clear()`. */
  const Empty := Table(map[], [])

  /** `estadisticas.get(name)`. */
  function Get(t: Table, name: string): Option<nat> {
    if name in t.points then Some(t.points[name]) else None
  }

  /** `estadisticas.get(name) || 0`: the points of a name, 0 when it has no entry. */
  function PointsOf(t: Table, name: string): nat {
    if name in t.points then t.points[name] else 0
  }

  /** `estadisticas.set(name, v)`. */
  function Set(t: Table, name: string, v: nat): (r: Table)
    ensures Get(r, name) == Some(v)
    ensures forall k :: k != name ==> Get(r, k) == Get(t, k)
    ensures r.order == if name in t.points then t.order else t.order + [name]
    ensures Valid(t) ==> Valid(r)
  {
    Table(t.points[name := v], if name in t.points then t.order else t.order + [name])
  }

  /** `Object.fromEntries(estadisticas)`, read back as its entries in insertion order. */
  function Snapshot(t: Table): seq<Entry> {
    seq(|t.order|, i requires 0 <= i < |t.order| => Entry(t.order[i], PointsOf(t, t.order[i])))
  }

  /** A snapshot lists every name of the ledger exactly once, with its points. */
  lemma SnapshotFaithful(t: Table)
    requires Valid(t)
    ensures var r := Snapshot(t);
      && (forall i :: 0 <= i < |r| ==> Get(t, r[i].name) == Some(r[i].points))
      && (forall i, j :: 0 <= i < j < |r| ==> r[i].name != r[j].name)
      && (forall k :: k in t.points ==> exists i :: 0 <= i < |r| && r[i] == Entry(k, t.points[k]))
  {
    var r := Snapshot(t);
    forall k | k in t.points ensures exists i :: 0 <= i < |r| && r[i] == Entry(k, t.points[k]) {
      var i :| 0 <= i < |t.order| && t.order[i] == k;
      assert r[i] == Entry(k, t.points[k]);
    }
  }

  /** Every name of `a` is still in `b`, with at least as many points. */
  ghost predicate Dominates(a: Table, b: Table) {
    forall k :: k in a.points ==> k in b.points && a.points[k] <= b.points[k]
  }
}
