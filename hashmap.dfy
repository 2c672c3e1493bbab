/**
 * The hierarchical parameter map of src/hashmap.rs: every node maps a path
 * segment to a leaf string (`V`) or to a nested node (`M`). A nested node
 * is owned by exactly one parent (a `Box` in the source), so it is held here
 * by value; the root is an object whose `items` the parser updates in place.
 */
module HashMap {
  import opened Wrappers

  datatype SysctlParameterValue =
    | V(value: string)
    | M(items: map<string, SysctlParameterValue>)

  /** The entries of one node. */
  type Items = map<string, SysctlParameterValue>

  /**
   * `get`: the entry at the end of `path`, walking one segment per level.
   * An empty path finds nothing, and a walk that meets a leaf or a missing
   * segment before its last segment finds nothing: there is no prefix match.
   */
  function Lookup(items: Items, path: seq<string>): Option<SysctlParameterValue>
    decreases |path|
  {
    if |path| == 0 then None
    else if |path| == 1 then (if path[0] in items then Some(items[path[0]]) else None)
    else if path[0] in items && items[path[0]].M? then Lookup(items[path[0]].items, path[1..])
    else None
  }

  /**
   * `insert`: the entries after storing `value` at `path`. A one-segment
   * path overwrites whatever is there. A longer path creates an empty node
   * under an absent first segment and descends into a node, but leaves
   * everything as it is when the first segment holds a leaf.
   */
  function Inserted(items: Items, path: seq<string>, value: string): Items
    decreases |path|
  {
    if |path| == 0 then items
    else if |path| == 1 then items[path[0] := V(value)]
    else
      var items := if path[0] in items then items else items[path[0] := M(map[])];
      match items[path[0]]
      case M(child) => items[path[0] := M(Inserted(child, path[1..], value))]
      case V(_) => items
  }

  /** The root of a parameter tree, updated in place by the parser. */
  class SysctlParameterHashMap {
    var items: Items

    constructor ()
      ensures items == map[]
    {
      items := map[];
    }

    function Get(path: seq<string>): Option<SysctlParameterValue>
      reads this
    {
      Lookup(items, path)
    }

    /**
     * Follows the source step by step: the boxed child is lifted into an
     * object of its own, updated by the recursive call and stored back.
     */
    method Insert(path: seq<string>, value: string)
      modifies this
      ensures items == Inserted(old(items), path, value)
      decreases |path|
    {
      if |path| == 0 {
        return;
      } else if |path| == 1 {
        items := items[path[0] := V(value)];
      } else {
        var childToken := path[0];
        if childToken !in items {
          items := items[childToken := M(map[])];
        }
        if items[childToken].M? {
          var child := new SysctlParameterHashMap();
          child.items := items[childToken].items;
          child.Insert(path[1..], value);
          items := items[childToken := M(child.items)];
        }
      }
    }
  }

  /** Some proper prefix of `path` already ends at a leaf. */
  ghost predicate LeafOnProperPrefix(items: Items, path: seq<string>) {
    exists i :: 1 <= i < |path| && Lookup(items, path[..i]).Some? && Lookup(items, path[..i]).value.V?
  }

  /** The two paths differ at some position both of them have. */
  ghost predicate Diverge(p: seq<string>, q: seq<string>) {
    exists i :: 0 <= i < |p| && i < |q| && p[i] != q[i]
  }

  /**
   * Looking up `p + q` is looking up `p` and then `q` inside the node found
   * there; a leaf or nothing at `p` means nothing at `p + q`.
   */
  lemma {:induction false} LookupAppend(items: Items, p: seq<string>, q: seq<string>)
    requires |p| >= 1 && |q| >= 1
    ensures Lookup(items, p + q) ==
              match Lookup(items, p)
              case Some(M(child)) => Lookup(child, q)
              case _ => None
    decreases |p|
  {
    assert (p + q)[0] == p[0];
    if |p| == 1 {
      assert (p + q)[1..] == q;
    } else {
      assert (p + q)[1..] == p[1..] + q;
      if p[0] in items && items[p[0]].M? {
        LookupAppend(items[p[0]].items, p[1..], q);
      }
    }
  }

  /**
   * `get` finds nothing for the empty path, and finds something on a longer
   * path only by walking through a node at its first segment.
   */
  lemma LookupFound(items: Items, path: seq<string>)
    ensures Lookup(items, []) == None
    ensures Lookup(items, path).Some? ==> |path| >= 1 && path[0] in items
    ensures |path| >= 2 && Lookup(items, path).Some? ==> items[path[0]].M?
  {
  }

  /** Nothing is found below a missing node. */
  lemma LookupEmpty(path: seq<string>)
    ensures Lookup(map[], path) == None
  {
  }

  /** Walking into the node under the first segment drops that segment from every prefix. */
  lemma LookupThroughNode(items: Items, path: seq<string>, i: int)
    requires |path| >= 2 && path[0] in items && items[path[0]].M?
    requires 2 <= i <= |path|
    ensures Lookup(items, path[..i]) == Lookup(items[path[0]].items, path[1..][..i - 1])
  {
    assert path[..i][1..] == path[1..][..i - 1];
  }

  /** Below a node at the first segment, a leaf on a proper prefix is a leaf on a proper prefix of the rest. */
  lemma LeafOnProperPrefixThroughNode(items: Items, path: seq<string>)
    requires |path| >= 2 && path[0] in items && items[path[0]].M?
    ensures LeafOnProperPrefix(items, path) <==> LeafOnProperPrefix(items[path[0]].items, path[1..])
  {
    var child := items[path[0]].items;
    if LeafOnProperPrefix(items, path) {
      var i :| 1 <= i < |path| && Lookup(items, path[..i]).Some? && Lookup(items, path[..i]).value.V?;
      assert path[..1] == [path[0]];
      LookupThroughNode(items, path, i);
      assert 1 <= i - 1 < |path[1..]|;
    }
    if LeafOnProperPrefix(child, path[1..]) {
      var i :| 1 <= i < |path[1..]| && Lookup(child, path[1..][..i]).Some? && Lookup(child, path[1..][..i]).value.V?;
      LookupThroughNode(items, path, i + 1);
    }
  }

  /**
   * The effect of a non-empty insert: when no proper prefix of the path is
   * a leaf, the path ends at the new leaf and every proper prefix ends at a
   * node; otherwise the insert changes nothing.
   */
  lemma {:induction false} InsertedLookup(items: Items, path: seq<string>, value: string)
    requires |path| >= 1
    ensures !LeafOnProperPrefix(items, path) ==>
              && Lookup(Inserted(items, path, value), path) == Some(V(value))
              && forall i :: 1 <= i < |path| ==>
                   Lookup(Inserted(items, path, value), path[..i]).Some? &&
                   Lookup(Inserted(items, path, value), path[..i]).value.M?
    ensures LeafOnProperPrefix(items, path) ==> Inserted(items, path, value) == items
    decreases |path|
  {
    if |path| > 1 {
      var head, rest := path[0], path[1..];
      var r := Inserted(items, path, value);
      assert path[..1] == [head];
      if head in items && items[head].V? {
        assert Lookup(items, path[..1]) == Some(items[head]);
      } else {
        var child := if head in items then items[head].items else map[];
        if head !in items {
          forall i | 1 <= i < |path| ensures Lookup(items, path[..i]) == None {}
        } else {
          LeafOnProperPrefixThroughNode(items, path);
        }
        InsertedLookup(child, rest, value);
        assert !LeafOnProperPrefix(items, path) ==> !LeafOnProperPrefix(child, rest) by {
          forall i | 1 <= i < |rest| ensures Lookup(map[], rest[..i]) == None { LookupEmpty(rest[..i]); }
        }
        assert r == items[head := M(Inserted(child, rest, value))];
        if !LeafOnProperPrefix(items, path) {
          forall i | 1 <= i < |path|
            ensures Lookup(r, path[..i]).Some? && Lookup(r, path[..i]).value.M?
          {
            if i >= 2 {
              LookupThroughNode(r, path, i);
            }
          }
        }
      }
    }
  }

  /** An insert leaves every path that parts from it somewhere as it was. */
  lemma {:induction false} InsertedPreservesDivergent(items: Items, p: seq<string>, q: seq<string>, value: string)
    requires Diverge(p, q)
    ensures Lookup(Inserted(items, p, value), q) == Lookup(items, q)
    decreases |p|
  {
    var i :| 0 <= i < |p| && i < |q| && p[i] != q[i];
    var r := Inserted(items, p, value);
    if p[0] != q[0] {
      assert q[0] in r <==> q[0] in items;
      assert q[0] in items ==> r[q[0]] == items[q[0]];
    } else if |p| > 1 {
      assert i > 0 && |q| > 1;
      assert Diverge(p[1..], q[1..]) by {
        assert p[1..][i - 1] != q[1..][i - 1];
      }
      if p[0] !in items {
        InsertedPreservesDivergent(map[], p[1..], q[1..], value);
        LookupEmpty(q[1..]);
      } else if items[p[0]].M? {
        InsertedPreservesDivergent(items[p[0]].items, p[1..], q[1..], value);
      }
    }
  }

  /** In particular an insert leaves alone every path with another first segment. */
  lemma InsertedPreservesOtherHeads(items: Items, p: seq<string>, q: seq<string>, value: string)
    requires |p| >= 1 && |q| >= 1 && p[0] != q[0]
    ensures Lookup(Inserted(items, p, value), q) == Lookup(items, q)
  {
    InsertedPreservesDivergent(items, p, q, value);
  }

  /** A leaf written at `p` hides every longer path through `p`. */
  lemma InsertedShadowsBelow(items: Items, p: seq<string>, rest: seq<string>, value: string)
    requires |p| >= 1 && |rest| >= 1 && !LeafOnProperPrefix(items, p)
    ensures Lookup(Inserted(items, p, value), p + rest) == None
  {
    InsertedLookup(items, p, value);
    LookupAppend(Inserted(items, p, value), p, rest);
  }

  /** Writing twice at the same path is writing the second value once: the later line wins. */
  lemma {:induction false} InsertedOverwrite(items: Items, path: seq<string>, first: string, second: string)
    ensures Inserted(Inserted(items, path, first), path, second) == Inserted(items, path, second)
    decreases |path|
  {
    if |path| > 1 {
      var head, rest := path[0], path[1..];
      if head !in items {
        InsertedOverwrite(map[], rest, first, second);
      } else if items[head].M? {
        InsertedOverwrite(items[head].items, rest, first, second);
      }
    }
  }

  /** The cases of the source one at a time: empty path, single segment, and the first segment of a longer path absent or a leaf. */
  lemma InsertedCases(items: Items, path: seq<string>, value: string)
    ensures path == [] ==> Inserted(items, path, value) == items
    ensures |path| == 1 ==>
              && Lookup(Inserted(items, path, value), path) == Some(V(value))
              && forall k :: k != path[0] && k in items ==> Inserted(items, path, value)[k] == items[k]
    ensures |path| > 1 && path[0] !in items ==>
              Inserted(items, path, value) == items[path[0] := M(Inserted(map[], path[1..], value))]
    ensures |path| > 1 && path[0] in items && items[path[0]].V? ==>
              Inserted(items, path, value) == items
    ensures forall k :: k in items ==> k in Inserted(items, path, value)
  {
  }
}
