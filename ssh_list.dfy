/**
 * The generic singly-linked list of libssh (struct ssh_list).
 *
 * A list holds cells (struct ssh_iterator), each with a `next` pointer and an
 * opaque `data` pointer that the list never owns. The list object keeps
 * pointers to the first cell (`root`) and the last cell (`end`). Appending is
 * constant time; removal of a given cell scans from the root for it, by
 * pointer identity.
 *
 * The abstract state of a list is the ghost sequence `Nodes` of its cells,
 * root first. `Valid()` ties it to the pointers: `root` and `end` are both
 * null exactly when there are no cells, each cell's `next` is the following
 * cell, the last cell's `next` is null, and no cell occurs twice (no cycle).
 */
module SshList {
  import opened Wrappers

  /** Return codes of libssh. */
  const SSH_OK: int := 0
  const SSH_ERROR: int := -1

  /** struct ssh_iterator: one cell of a list. */
  class Iterator<T> {
    var next: Iterator?<T>
    const data: T

    constructor (data: T)
      ensures this.data == data && next == null
    {
      this.data := data;
      next := null;
    }
  }

  /** The data of the cells `ns`, in order. */
  function DataOf<T>(ns: seq<Iterator<T>>): seq<T>
  {
    seq(|ns|, i requires 0 <= i < |ns| => ns[i].data)
  }

  ghost predicate Distinct<T>(ns: seq<Iterator<T>>)
  {
    forall i, j :: 0 <= i < j < |ns| ==> ns[i] != ns[j]
  }

  /** Reference definition of removal: the first occurrence of cell `x` taken out of `ns`. */
  function RemoveNode<T>(ns: seq<Iterator<T>>, x: Iterator?<T>): seq<Iterator<T>>
  {
    if ns == [] then []
    else if ns[0] == x then ns[1..]
    else [ns[0]] + RemoveNode(ns[1..], x)
  }

  /** Removing a cell found at index `k` (its first occurrence) splices it out: the others keep their order. */
  lemma {:induction false} RemoveNodeAt<T>(ns: seq<Iterator<T>>, x: Iterator?<T>, k: nat)
    requires k < |ns| && ns[k] == x
    requires forall j :: 0 <= j < k ==> ns[j] != x
    ensures RemoveNode(ns, x) == ns[..k] + ns[k + 1..]
    ensures DataOf(RemoveNode(ns, x)) == DataOf(ns)[..k] + DataOf(ns)[k + 1..]
  {
    if k > 0 {
      RemoveNodeAt(ns[1..], x, k - 1);
      assert ns[1..][..k - 1] == ns[1..k];
      assert ns[1..][k..] == ns[k + 1..];
      assert [ns[0]] + ns[1..k] == ns[..k];
    }
  }

  /** Removing a cell that is not in the list changes nothing. */
  lemma {:induction false} RemoveNodeAbsent<T>(ns: seq<Iterator<T>>, x: Iterator?<T>)
    requires x !in ns
    ensures RemoveNode(ns, x) == ns
  {
    if ns != [] {
      assert ns[1..] + [] == ns[1..];
      assert x !in ns[1..];
      RemoveNodeAbsent(ns[1..], x);
    }
  }

  /**
   * In a list without repeated cells, removing a cell that is present takes
   * out exactly that cell, keeps every other one, and leaves no repetition.
   */
  lemma RemoveNodeExactly<T>(ns: seq<Iterator<T>>, x: Iterator?<T>)
    requires Distinct(ns) && x in ns
    ensures |RemoveNode(ns, x)| == |ns| - 1
    ensures x !in RemoveNode(ns, x)
    ensures forall y :: y in ns && y != x <==> y in RemoveNode(ns, x)
    ensures Distinct(RemoveNode(ns, x))
  {
    var k :| 0 <= k < |ns| && ns[k] == x;
    RemoveNodeAt(ns, x, k);
    var r := ns[..k] + ns[k + 1..];
    forall i | 0 <= i < |r|
      ensures r[i] == (if i < k then ns[i] else ns[i + 1])
    {
    }
  }

  /** Removing the same cell twice is the same as removing it once. */
  lemma RemoveNodeIdempotent<T>(ns: seq<Iterator<T>>, x: Iterator?<T>)
    requires Distinct(ns)
    ensures RemoveNode(RemoveNode(ns, x), x) == RemoveNode(ns, x)
  {
    if x in ns {
      RemoveNodeExactly(ns, x);
      RemoveNodeAbsent(RemoveNode(ns, x), x);
    } else {
      RemoveNodeAbsent(ns, x);
      RemoveNodeAbsent(ns, x);
    }
  }

  /** struct ssh_list */
  class List<T> {
    var root: Iterator?<T>
    var end: Iterator?<T>

    // abstract state: the cells, root first, and the objects the list owns
    ghost var Nodes: seq<Iterator<T>>
    ghost var Repr: set<object>

    ghost predicate Valid()
      reads this, Repr
      ensures Valid() ==> this in Repr
    {
      && this in Repr
      && (forall i :: 0 <= i < |Nodes| ==> Nodes[i] in Repr)
      && (Nodes == [] ==> root == null && end == null)
      && (Nodes != [] ==> root == Nodes[0] && end == Nodes[|Nodes| - 1] && end.next == null)
      && (forall i {:trigger Nodes[i].next} :: 0 <= i < |Nodes| - 1 ==> Nodes[i].next == Nodes[i + 1])
      && Distinct(Nodes)
    }

    /** The data held by the list, in order. */
    ghost function Contents(): seq<T>
      reads this
    {
      DataOf(Nodes)
    }

    constructor ()
      ensures Valid() && fresh(Repr)
      ensures Nodes == [] && root == null && end == null
    {
      root := null;
      end := null;
      Nodes := [];
      Repr := {this};
    }

    /** ssh_list_new: an empty list, or null when allocation fails. */
    static method New(allocOk: bool) returns (list: List?<T>)
      ensures allocOk ==> list != null && fresh(list.Repr) && list.Valid() && list.Nodes == []
      ensures allocOk ==> list.root == null && list.end == null
      ensures !allocOk ==> list == null
    {
      if !allocOk {
        return null;
      }
      list := new List();
    }

    /** ssh_list_get_iterator: the first cell, or null for an empty list. */
    method GetIterator() returns (it: Iterator?<T>)
      requires Valid()
      ensures it == if Nodes == [] then null else Nodes[0]
    {
      it := root;
    }

    /** ssh_iterator_new: a fresh unlinked cell, or null when allocation fails. */
    static method NewIterator(data: T, allocOk: bool) returns (it: Iterator?<T>)
      ensures allocOk ==> it != null && fresh(it) && it.data == data && it.next == null
      ensures !allocOk ==> it == null
    {
      if !allocOk {
        return null;
      }
      it := new Iterator(data);
    }

    /**
     * ssh_list_add: append a new cell holding `data` and return SSH_OK; when
     * the cell cannot be allocated, return SSH_ERROR and change nothing.
     */
    method Add(data: T, allocOk: bool) returns (rc: int)
      requires Valid()
      modifies Repr
      ensures Valid() && fresh(Repr - old(Repr))
      ensures allocOk ==> rc == SSH_OK && fresh(end) && Nodes == old(Nodes) + [end]
      ensures allocOk ==> end.data == data && end.next == null && Contents() == old(Contents()) + [data]
      ensures allocOk && old(Nodes) == [] ==> root == end
      ensures !allocOk ==> rc == SSH_ERROR && unchanged(this) && unchanged(Repr)
    {
      var it := NewIterator(data, allocOk);
      if it == null {
        return SSH_ERROR;
      }
      if end == null {
        // the list is empty
        root, end := it, it;
      } else {
        // put the cell at the end of the list
        end.next := it;
        end := it;
      }
      Nodes := Nodes + [it];
      Repr := Repr + {it};
      rc := SSH_OK;
    }

    /**
     * ssh_list_remove: unlink the cell `it` if it is in the list (found
     * by pointer, not by data); otherwise change nothing. The unlinked cell
     * is no longer owned by the list and its own `next` is left as it was.
     */
    method Remove(it: Iterator?<T>)
      requires Valid()
      modifies Repr
      ensures Valid() && fresh(Repr - old(Repr))
      ensures Nodes == RemoveNode(old(Nodes), it)
      ensures it !in old(Nodes) ==> unchanged(this) && unchanged(Repr)
      ensures it in old(Nodes) ==> Repr == old(Repr) - {it as object}
      ensures it != null ==> it.next == old(it.next)
      ensures it in old(Nodes) && old(root) == it ==> root == old(it.next)
      ensures it in old(Nodes) && old(end) == it ==>
        end == if |old(Nodes)| == 1 then null else old(Nodes)[|old(Nodes)| - 2]
    {
      var prev: Iterator?<T> := null;
      var ptr := root;
      ghost var k := 0;
      while ptr != null && ptr != it
        invariant 0 <= k <= |Nodes|
        invariant ptr == if k < |Nodes| then Nodes[k] else null
        invariant prev == if k == 0 then null else Nodes[k - 1]
        invariant forall j :: 0 <= j < k ==> Nodes[j] != it
        decreases |Nodes| - k
        modifies {}
      {
        prev := ptr;
        ptr := ptr.next;
        k := k + 1;
      }
      if ptr == null {
        // the cell is not in the list
        RemoveNodeAbsent(Nodes, it);
        return;
      }
      RemoveNodeAt(Nodes, it, k);
      Unlink(prev, ptr, k);
    }

    /**
     * The second half of ssh_list_remove: unlink the cell `ptr` found at index
     * `k`, whose predecessor is `prev`, and fix `root` and `end` if `ptr` was
     * the first or the last cell.
     */
    method Unlink(prev: Iterator?<T>, ptr: Iterator<T>, ghost k: nat)
      requires Valid()
      requires k < |Nodes| && Nodes[k] == ptr
      requires prev == if k == 0 then null else Nodes[k - 1]
      modifies Repr
      ensures Valid() && Repr == old(Repr) - {ptr}
      ensures Nodes == old(Nodes[..k] + Nodes[k + 1..])
      ensures ptr.next == old(ptr.next)
      ensures old(root) == ptr ==> root == old(ptr.next)
      ensures old(end) == ptr ==> end == prev
    {
      ghost var ns := Nodes;
      ghost var after := if k + 1 < |ns| then ns[k + 1] else null;
      assert ptr.next == after;
      // unlink it
      if prev != null {
        prev.next := ptr.next;
      }
      // the cell was the head
      if root == ptr {
        root := ptr.next;
      }
      // the cell was the tail
      if end == ptr {
        end := prev;
      }
      Nodes := ns[..k] + ns[k + 1..];
      Repr := Repr - {ptr};
      assert forall i :: 0 <= i < |Nodes| ==> Nodes[i] == if i < k then ns[i] else ns[i + 1];
    }

    /**
     * _ssh_list_get_head: remove the first cell and return its data, or
     * return None and change nothing when the list is empty.
     */
    method GetHead() returns (d: Option<T>)
      requires Valid()
      modifies this
      ensures Valid() && fresh(Repr - old(Repr))
      ensures old(Nodes) == [] ==> d == None && unchanged(this)
      ensures old(Nodes) != [] ==> d == Some(old(Contents())[0]) && Nodes == old(Nodes)[1..]
      ensures old(Nodes) != [] ==> Contents() == old(Contents())[1..] && Repr == old(Repr) - {old(root) as object}
      ensures |old(Nodes)| == 1 ==> root == null && end == null
    {
      var it := root;
      if root == null {
        return None;
      }
      d := Some(it.data);
      root := it.next;
      if end == it {
        end := null;
      }
      Nodes := Nodes[1..];
      Repr := Repr - {it};
    }

    /**
     * ssh_list_free: walk the cells from the root, releasing each one, then
     * the list. Returns the cells in the order they are released: every cell
     * of the list, once each, root first. The data is not released.
     */
    method Free() returns (released: seq<Iterator<T>>)
      requires Valid()
      ensures released == Nodes
    {
      var ptr := root;
      released := [];
      while ptr != null
        invariant |released| <= |Nodes|
        invariant released == Nodes[..|released|]
        invariant ptr == if |released| < |Nodes| then Nodes[|released|] else null
        decreases |Nodes| - |released|
      {
        var next := ptr.next;
        released := released + [ptr];
        ptr := next;
      }
    }
  }
}
