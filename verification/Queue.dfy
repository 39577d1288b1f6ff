/**
 * The intrusive linked queue of `common/queue.c` and `common/queue.h`, on the heap. A ghost sequence of
 * distinct nodes says what the pointers mean; a ghost flag says that a node has been given back.
 */
module Queues {

  class Entry<T> {
    var next: Entry?<T>
    var timestamp: int
    var ref: T
    ghost var freed: bool

    /** `q_alloc` */
    constructor (p: T)
      ensures next == null && ref == p && !freed
    {
      next, timestamp, ref := null, 0, p;
      freed := false;
    }
  }

  predicate Distinct<X(==)>(s: seq<X>) {
    forall i, j :: 0 <= i < j < |s| ==> s[i] != s[j]
  }

  function Remove<X(==)>(s: seq<X>, x: X): (r: seq<X>)
    ensures x !in s ==> r == s
    ensures x !in r && forall y :: y in r ==> y in s
  {
    if s == [] then [] else if s[0] == x then Remove(s[1..], x) else [s[0]] + Remove(s[1..], x)
  }

  /** What a list of entries refers to. */
  ghost function Refs<T>(nodes: seq<Entry<T>>): (s: seq<T>)
    reads nodes
    ensures |s| == |nodes|
  {
    seq(|nodes|, i requires 0 <= i < |nodes| reads nodes => nodes[i].ref)
  }

  class Queue<T> {
    var head: Entry?<T>
    var tail: Entry?<T>
    ghost var nodes: seq<Entry<T>>

    /** Acyclic, `tail` last, and no node of the queue has been freed. */
    ghost predicate Valid()
      reads this, nodes
    {
      && Distinct(nodes)
      && (nodes == [] ==> head == null && tail == null)
      && (nodes != [] ==> head == nodes[0] && tail == nodes[|nodes| - 1] && nodes[|nodes| - 1].next == null)
      && (forall i :: 0 <= i < |nodes| - 1 ==> nodes[i].next == nodes[i + 1])
      && (forall i :: 0 <= i < |nodes| ==> !nodes[i].freed)
    }

    /** What the entries refer to, in queue order. */
    ghost function Contents(): (s: seq<T>)
      reads this, nodes
      ensures |s| == |nodes|
    {
      Refs(nodes)
    }

    constructor ()
      ensures Valid() && nodes == []
    {
      head, tail := null, null;
      nodes := [];
    }

    /** `q_put`: append, unless the entry is already queued. */
    method Put(qe: Entry<T>, now: int) returns (r: Entry<T>)
      requires Valid() && !qe.freed
      modifies this, nodes`next, qe`next, qe`timestamp
      ensures Valid() && r == qe
      ensures nodes == if qe in old(nodes) then old(nodes) else old(nodes) + [qe]
      ensures qe in old(nodes) ==> unchanged(this) && unchanged(old(nodes)) && unchanged(qe)
      ensures qe !in old(nodes) ==> qe.timestamp == now
    {
      var m := head;
      ghost var k := 0;
      while m != null
        invariant 0 <= k <= |nodes| && m == (if k < |nodes| then nodes[k] else null)
        invariant qe !in nodes[..k]
        decreases |nodes| - k
      {
        if m == qe {
          return m;
        }
        m := m.next;
        k := k + 1;
      }
      assert nodes[..k] == nodes;
      if tail != null {
        tail.next := qe;
      }
      qe.next := null;
      tail := qe;
      if head == null {
        head := qe;
      }
      qe.timestamp := now;
      nodes := nodes + [qe];
      return qe;
    }

    /** `q_get`: unlink the first entry; its own link still points into the queue. */
    method Get() returns (qe: Entry?<T>)
      requires Valid()
      modifies this
      ensures Valid()
      ensures old(nodes) == [] ==> qe == null && nodes == []
      ensures old(nodes) != [] ==> qe == old(nodes)[0] && nodes == old(nodes)[1..] && !qe.freed && qe !in nodes
    {
      qe := head;
      if tail == qe {
        tail := null;
      }
      if qe == null {
        return;
      }
      head := qe.next;
      nodes := nodes[1..];
    }

    /** `q_free`: unlink the entry wherever it stands, if at all, and give it back. */
    method Free(qe: Entry<T>)
      requires Valid() && !qe.freed
      modifies this, nodes`next, qe`freed
      ensures Valid() && qe.freed
      ensures nodes == Remove(old(nodes), qe)
      ensures qe !in old(nodes) ==> unchanged(this) && unchanged(old(nodes))
      ensures qe.next == old(qe.next)
    {
      hide Remove;
      ghost var ns := nodes;
      RemoveNone(qe);
      if head != null {
        if qe == head && qe == tail {
          RemoveFirst(ns);
          head, tail := null, null;
          nodes := [];
        } else if qe == head && qe != tail {
          RemoveFirst(ns);
          head := head.next;
          nodes := nodes[1..];
        } else {
          Unlink(qe);
        }
      }
      qe.freed := true;
    }

    /** `m_qe_prev->next = m_qe->next` */
    method Bypass(prev: Entry<T>, ghost k: nat)
      requires k + 1 < |nodes| && prev == nodes[k]
      requires Linked(nodes) && Distinct(nodes)
      modifies this`nodes, prev`next
      ensures nodes == old(nodes)[..k + 1] + old(nodes)[k + 2..]
      ensures Linked(nodes) && Distinct(nodes) && prev.next == (if k + 1 < |nodes| then nodes[k + 1] else null)
    {
      ghost var ns := nodes;
      assert ns[k].next == ns[k + 1];
      prev.next := prev.next.next;
      nodes := ns[..k + 1] + ns[k + 2..];
      assert forall i :: 0 <= i < |ns| && i != k ==> ns[i].next == old(ns[i].next);
      forall i | 0 <= i < |nodes| - 1 ensures nodes[i].next == nodes[i + 1] {
        assert nodes[i] == (if i <= k then ns[i] else ns[i + 1]);
        assert nodes[i + 1] == (if i + 1 <= k then ns[i + 1] else ns[i + 2]);
      }
      CutDistinct(ns, k + 1);
    }

    /** The last part of `q_free`, for an entry that is not the first one. */
    method Unlink(qe: Entry<T>)
      requires Valid() && head != null && qe != head
      modifies this, nodes`next
      ensures Valid() && nodes == Remove(old(nodes), qe)
      ensures qe !in old(nodes) ==> unchanged(this) && unchanged(old(nodes))
      ensures qe.next == old(qe.next)
    {
      hide Remove;
      var prev := Walk(qe);
      assert forall n :: n in nodes ==> n in old(nodes) && !n.freed;
      if qe != head && qe == tail {
        tail := prev;
      }
    }

    /** The walk of `q_free`: bypasses the entry if it comes across it, and returns the last entry left. */
    method Walk(qe: Entry<T>) returns (prev: Entry<T>)
      requires Valid() && head != null && qe != head
      modifies this`nodes, nodes`next
      ensures nodes == Remove(old(nodes), qe) && Linked(nodes) && Distinct(nodes)
      ensures nodes != [] && head == nodes[0] && prev == nodes[|nodes| - 1]
      ensures qe !in old(nodes) ==> forall n :: n in nodes ==> n.next == old(n.next)
      ensures qe in old(nodes) && qe != tail ==> prev == tail
      ensures qe.next == old(qe.next)
    {
      hide Remove;
      ghost var ns, k, cut := nodes, 0, -1;
      var m;
      prev, m := head, head.next;
      while m != null
        invariant 0 <= k < |nodes| && prev == nodes[k] && m == (if k + 1 < |nodes| then nodes[k + 1] else null)
        invariant nodes[0] == ns[0] && Linked(nodes) && Distinct(nodes)
        invariant if cut < 0 then nodes == ns && qe !in ns[..k + 1] && (forall n :: n in ns ==> n.next == old(n.next))
                  else 0 < cut < |ns| && ns[cut] == qe && nodes == ns[..cut] + ns[cut + 1..] && cut <= k + 1
        invariant qe.next == old(qe.next)
        decreases |nodes| - k
      {
        if m == qe {
          Bypass(prev, k);
          m := m.next;
          cut := k + 1;
        } else {
          prev := m;
          m := m.next;
          k := k + 1;
        }
      }
      if cut >= 0 {
        RemoveAt(ns, cut);
      } else {
        assert ns[..k + 1] == ns;
      }
    }
  }

  /** Consecutive nodes point to each other and the last one to nothing. */
  ghost predicate Linked<T>(nodes: seq<Entry<T>>)
    reads nodes
  {
    && (forall i :: 0 <= i < |nodes| - 1 ==> nodes[i].next == nodes[i + 1])
    && (nodes != [] ==> nodes[|nodes| - 1].next == null)
  }

  lemma CutDistinct<X>(s: seq<X>, i: nat)
    requires Distinct(s) && i < |s|
    ensures Distinct(s[..i] + s[i + 1..])
  {
  }

  lemma {:induction false} RemoveAt<X>(s: seq<X>, i: nat)
    requires Distinct(s) && i < |s|
    ensures Remove(s, s[i]) == s[..i] + s[i + 1..]
  {
    var t := s[1..];
    if i == 0 {
      assert s[0] !in t;
    } else {
      RemoveAt(t, i - 1);
      assert t[i - 1] == s[i] && t[i..] == s[i + 1..];
      assert [s[0]] + t[..i - 1] == s[..i];
      assert s[0] != s[i];
      assert Remove(s, s[i]) == [s[0]] + (t[..i - 1] + t[i..]);
    }
  }

  lemma RemoveNone<X>(x: X)
    ensures Remove([], x) == []
  {
  }

  lemma RemoveFirst<X>(s: seq<X>)
    requires Distinct(s) && s != []
    ensures Remove(s, s[0]) == s[1..]
  {
    RemoveAt(s, 0);
    assert s[..0] + s[1..] == s[1..];
  }
}
