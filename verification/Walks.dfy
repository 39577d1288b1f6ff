/**
 * What the loops of the repository do with the linked queues: put at the end, take from the front, follow the links,
 * change an element in place, and free entries while walking. What does not change meanwhile is shown here too.
 */
module Walks {
  import opened Per
  import opened Queues

  /** An entry at the end of a list of entries. */
  lemma RefsAppend<T>(nodes: seq<Entry<T>>, e: Entry<T>)
    ensures Refs(nodes + [e]) == Refs(nodes) + [e.ref]
  {
  }

  /** Queueing an entry that is not queued yet. */
  method Append<T>(q: Queue<T>, entry: Entry<T>, now: int)
    requires q.Valid() && entry !in q.nodes && !entry.freed
    modifies q, q.nodes`next, entry`next, entry`timestamp
    ensures q.Valid() && q.nodes == old(q.nodes) + [entry]
    ensures q.Contents() == old(q.Contents()) + [entry.ref]
  {
    ghost var ns := q.nodes;
    var r := q.Put(entry, now);
    RefsAppend(ns, entry);
    assert Refs(ns) == old(q.Contents());
  }

  /** `q_alloc` followed by `q_put`. */
  method PutNew<T>(q: Queue<T>, x: T, now: int)
    requires q.Valid()
    modifies q, q.nodes`next
    ensures q.Valid() && Renewed(q) && q.Contents() == old(q.Contents()) + [x]
  {
    hide Distinct, Refs;
    var entry := new Entry(x);
    Append(q, entry, now);
  }

  /** `q_get` followed by `q_free` of the entry that has already left the queue. */
  method TakeFirst<T>(q: Queue<T>) returns (r: Option<T>)
    requires q.Valid()
    modifies q, q.nodes`next, q.nodes`freed
    ensures q.Valid() && Smaller(old(q.nodes), q)
    ensures var before := old(q.Contents());
            if before == [] then r == None && q.Contents() == []
            else r == Some(before[0]) && q.Contents() == before[1..]
    ensures old(q.nodes) != [] ==> q.nodes == old(q.nodes)[1..] && old(q.nodes)[0].freed
  {
    hide Remove, Distinct;
    var qe := q.Get();
    if qe == null {
      return None;
    }
    r := Some(qe.ref);
    q.Free(qe);
    assert q.nodes == old(q.nodes)[1..];
    assert Refs(q.nodes) == old(q.Contents())[1..];
  }

  /** `free_..._messages`: the queue is emptied entry by entry. */
  method Empty<T>(q: Queue<T>)
    requires q.Valid()
    modifies q, q.nodes`next, q.nodes`freed
    ensures q.Valid() && q.nodes == [] && forall i :: 0 <= i < |old(q.nodes)| ==> old(q.nodes)[i].freed
  {
    hide Distinct, Refs, Remove;
    ghost var ns, k: nat := q.nodes, 0;
    while q.head != null
      invariant q.Valid() && k <= |ns| && q.nodes == ns[k..] && forall i :: 0 <= i < k ==> ns[i].freed
      decreases |ns| - k
    {
      var r := TakeFirst(q);
      k := k + 1;
    }
  }

  /** The loop that queues what was parsed. */
  method PutAll<T>(q: Queue<T>, elements: seq<T>, now: int)
    requires q.Valid()
    modifies q, q.nodes`next
    ensures q.Valid() && q.Contents() == old(q.Contents()) + elements
    ensures Renewed(q)
  {
    hide Distinct, Refs;
    var i := 0;
    while i < |elements|
      invariant 0 <= i <= |elements| && q.Valid() && q.Contents() == old(q.Contents()) + elements[..i]
      invariant Renewed(q)
    {
      PutNew(q, elements[i], now);
      assert elements[..i + 1] == elements[..i] + [elements[i]];
      i := i + 1;
    }
    assert elements[..i] == elements;
  }

  /** The entry at a position of the queue, null behind its end. */
  ghost function At<T>(q: Queue<T>, i: nat): Entry?<T>
    reads q
  {
    if i < |q.nodes| then q.nodes[i] else null
  }

  /** Following a link is moving to the next position. */
  lemma Follow<T>(q: Queue<T>, i: nat)
    requires q.Valid() && i < |q.nodes|
    ensures q.nodes[i].ref == q.Contents()[i] && q.nodes[i].next == At(q, i + 1) && |q.Contents()| == |q.nodes|
  {
  }

  lemma AtHead<T>(q: Queue<T>)
    requires q.Valid()
    ensures q.head == At(q, 0)
  {
  }

  /** What an entry refers to is changed in place. */
  method SetRef<T>(q: Queue<T>, qe: Entry<T>, x: T, ghost i: nat)
    requires q.Valid() && i < |q.nodes| && qe == q.nodes[i]
    modifies qe`ref
    ensures q.Valid() && q.Contents() == old(q.Contents())[i := x]
  {
    ghost var ns := q.nodes;
    assert forall k :: 0 <= k < |ns| && k != i ==> ns[k] != qe;
    qe.ref := x;
  }

  /** The entries of the queue are among `ns`. */
  ghost predicate Smaller<T>(ns: seq<Entry<T>>, q: Queue<T>)
    reads q
  {
    forall i :: 0 <= i < |q.nodes| ==> q.nodes[i] in ns
  }

  lemma SmallerSelf<T>(q: Queue<T>)
    ensures Smaller(q.nodes, q)
  {
  }

  ghost predicate Separate<A, B>(a: object, ns: seq<Entry<A>>, b: object, ms: seq<Entry<B>>) {
    && a != b
    && (forall i :: 0 <= i < |ns| ==> (ns[i] as object) != b)
    && (forall j :: 0 <= j < |ms| ==> (ms[j] as object) != a)
    && (forall i, j :: 0 <= i < |ns| && 0 <= j < |ms| ==> (ns[i] as object) != ms[j])
  }

  /** Two queues have no memory in common. */
  ghost predicate Apart<A, B>(a: Queue<A>, b: Queue<B>)
    reads a, b
  {
    Separate(a, a.nodes, b, b.nodes)
  }

  /** Queues that lose entries stay apart. */
  lemma StillApart<A, B>(a: Queue<A>, ns: seq<Entry<A>>, b: Queue<B>, ms: seq<Entry<B>>)
    requires Separate(a, ns, b, ms) && Smaller(ns, a) && Smaller(ms, b)
    ensures Apart(a, b)
  {
    forall i, j | 0 <= i < |a.nodes| && 0 <= j < |b.nodes| ensures (a.nodes[i] as object) != b.nodes[j] {
      var k, l := IndexIn(ns, a.nodes[i]), IndexIn(ms, b.nodes[j]);
    }
    forall i | 0 <= i < |a.nodes| ensures (a.nodes[i] as object) != b {
      var k := IndexIn(ns, a.nodes[i]);
    }
    forall j | 0 <= j < |b.nodes| ensures (b.nodes[j] as object) != a {
      var l := IndexIn(ms, b.nodes[j]);
    }
  }

  lemma StillSeparate<A, B>(a: object, ns: seq<Entry<A>>, b: Queue<B>, ms: seq<Entry<B>>)
    requires Separate(a, ns, b, ms) && Smaller(ms, b)
    ensures Separate(a, ns, b, b.nodes)
  {
    forall i, j | 0 <= i < |ns| && 0 <= j < |b.nodes| ensures (ns[i] as object) != b.nodes[j] {
      var l := IndexIn(ms, b.nodes[j]);
    }
    forall j | 0 <= j < |b.nodes| ensures (b.nodes[j] as object) != a {
      var l := IndexIn(ms, b.nodes[j]);
    }
  }

  ghost function IndexIn<X>(s: seq<X>, x: X): (i: nat)
    requires x in s
    ensures i < |s| && s[i] == x
  {
    var i: nat :| i < |s| && s[i] == x;
    i
  }

  /** The entries `ns` refer to `vs`. */
  ghost predicate Refer<T>(ns: seq<Entry<T>>, vs: seq<T>)
    reads ns
  {
    |ns| == |vs| && forall i :: 0 <= i < |ns| ==> ns[i].ref == vs[i]
  }

  /** Every entry of `ns` is still queued or has been given back. */
  ghost predicate Accounted<T>(ns: seq<Entry<T>>, q: Queue<T>)
    reads q, ns
  {
    forall i :: 0 <= i < |ns| ==> ns[i] in q.nodes || ns[i].freed
  }

  /**
   * Where a walk that frees entries stands: of the entries behind it `kept` are still queued and refer
   * to `stay`; `rest` lies ahead and refers to `todo`.
   */
  ghost predicate Walking<T>(q: Queue<T>, ns: seq<Entry<T>>, kept: seq<Entry<T>>, rest: seq<Entry<T>>, stay: seq<T>,
                             todo: seq<T>, qe: Entry?<T>)
    reads q, ns, kept, rest
  {
    && Accounted(ns, q)
    && q.nodes == kept + rest && Refer(kept, stay) && Refer(rest, todo)
    && qe == (if rest == [] then null else rest[0])
  }

  lemma WalkStart<T>(q: Queue<T>)
    requires q.Valid()
    ensures Walking(q, q.nodes, [], q.nodes, [], q.Contents(), q.head)
  {
  }

  lemma WalkEnd<T>(q: Queue<T>, ns: seq<Entry<T>>, kept: seq<Entry<T>>, rest: seq<Entry<T>>, stay: seq<T>, todo: seq<T>)
    requires Walking(q, ns, kept, rest, stay, todo, null)
    ensures todo == [] && q.Contents() == stay && Accounted(ns, q)
  {
    assert rest == [];
  }

  /** The entry at hand is alive, and its link leads to the next one. */
  lemma AtHand<T>(q: Queue<T>, ns: seq<Entry<T>>, kept: seq<Entry<T>>, rest: seq<Entry<T>>, stay: seq<T>, todo: seq<T>,
                  qe: Entry<T>)
    requires q.Valid() && Walking(q, ns, kept, rest, stay, todo, qe)
    ensures rest != [] && todo != [] && qe.ref == todo[0] && qe in q.nodes && !qe.freed
    ensures Remove(q.nodes, qe) == kept + rest[1..]
    ensures Walking(q, ns, kept + [qe], rest[1..], stay + [qe.ref], todo[1..], qe.next)
  {
    hide Remove, Distinct;
    var ns, k := q.nodes, |kept|;
    SplitAt(ns, kept, rest);
    assert ns[k] == qe && !ns[k].freed;
    RemoveAt(ns, k);
  }

  lemma SplitAt<X>(ns: seq<X>, a: seq<X>, b: seq<X>)
    requires ns == a + b && b != []
    ensures ns[|a|] == b[0] && ns[..|a|] == a && ns[|a| + 1..] == b[1..] && ns == (a + [b[0]]) + b[1..]
    ensures |b| > 1 ==> ns[|a| + 1] == b[1..][0]
  {
  }

  /** `q_free` of the entry at hand, after the walk has moved on. */
  method FreeBehind<T>(q: Queue<T>, qe: Entry<T>, ghost ns: seq<Entry<T>>, ghost kept: seq<Entry<T>>,
                       ghost rest: seq<Entry<T>>, ghost stay: seq<T>, ghost todo: seq<T>)
    returns (next: Entry?<T>)
    requires q.Valid() && Walking(q, ns, kept, rest, stay, todo, qe)
    modifies q, q.nodes`next, q.nodes`freed
    ensures q.Valid() && rest != [] && todo != [] && Walking(q, ns, kept, rest[1..], stay, todo[1..], next)
    ensures Smaller(old(q.nodes), q)
    ensures qe.freed
  {
    hide Remove, Distinct;
    AtHand(q, ns, kept, rest, stay, todo, qe);
    next := qe.next;
    q.Free(qe);
  }

  /** The same beside a queue that is not touched. */
  method FreeAside<A, B>(other: Queue<A>, q: Queue<B>, qe: Entry<B>, ghost ns: seq<Entry<B>>,
                         ghost kept: seq<Entry<B>>, ghost rest: seq<Entry<B>>, ghost stay: seq<B>, ghost todo: seq<B>)
    returns (next: Entry?<B>)
    requires other.Valid() && q.Valid() && Smaller(ns, q) && Separate(other, other.nodes, q, ns)
    requires Walking(q, ns, kept, rest, stay, todo, qe)
    modifies q, q.nodes`next, q.nodes`freed
    ensures other.Valid() && other.Contents() == old(other.Contents()) && unchanged(other)
    ensures q.Valid() && rest != [] && todo != [] && Walking(q, ns, kept, rest[1..], stay, todo[1..], next)
    ensures Smaller(ns, q) && Smaller(old(q.nodes), q) && qe.freed
  {
    hide Walking, Distinct, Remove, Refs;
    StillSeparate(other, other.nodes, q, ns);
    next := FreeBehind(q, qe, ns, kept, rest, stay, todo);
  }

  lemma Swap<A, B>(a: object, ns: seq<Entry<A>>, b: object, ms: seq<Entry<B>>)
    requires Separate(a, ns, b, ms)
    ensures Separate(b, ms, a, ns)
  {
  }

  /** The entries of the queue were queued before or are new. */
  twostate predicate Renewed<T>(q: Queue<T>)
    reads q
  {
    forall k :: 0 <= k < |q.nodes| ==> q.nodes[k] in old(q.nodes) || fresh(q.nodes[k])
  }

  twostate lemma RenewedSelf<T>(q: Queue<T>)
    requires unchanged(q)
    ensures Renewed(q)
  {
  }

  lemma ApartNow<A, B>(a: Queue<A>, b: Queue<B>)
    requires Apart(a, b)
    ensures Separate(a, a.nodes, b, b.nodes)
  {
  }

  lemma ApartFrom<A, B>(a: Queue<A>, b: Queue<B>, ms: seq<Entry<B>>)
    requires Separate(a, a.nodes, b, ms) && Smaller(ms, b)
    ensures Apart(a, b)
  {
    hide Separate;
    StillSeparate(a, a.nodes, b, ms);
  }

  /** An entry that has no part in a queue. */
  ghost predicate Outside<A, B>(e: Entry<A>, b: Queue<B>)
    reads b
  {
    (e as object) != b && forall j :: 0 <= j < |b.nodes| ==> (e as object) != b.nodes[j]
  }

  /** A queue that gets new entries, or loses some, stays apart. */
  lemma GrownApart<A, B>(a: Queue<A>, na: seq<Entry<A>>, b: Queue<B>)
    requires Separate(a, na, b, b.nodes)
    requires forall k :: 0 <= k < |a.nodes| ==> a.nodes[k] in na || Outside(a.nodes[k], b)
    ensures Apart(a, b) && Apart(b, a)
  {
    forall i, j | 0 <= i < |a.nodes| && 0 <= j < |b.nodes| ensures (a.nodes[i] as object) != b.nodes[j] {
      if a.nodes[i] in na {
        var k := IndexIn(na, a.nodes[i]);
      }
    }
    forall i | 0 <= i < |a.nodes| ensures (a.nodes[i] as object) != b {
      if a.nodes[i] in na {
        var k := IndexIn(na, a.nodes[i]);
      }
    }
  }

  /** `TakeFirst` beside two queues that are not touched. */
  method TakeFirstAside<T, A, B>(q: Queue<T>, a: Queue<A>, b: Queue<B>) returns (r: Option<T>)
    requires q.Valid() && a.Valid() && b.Valid() && Apart(q, a) && Apart(q, b)
    modifies q, q.nodes`next, q.nodes`freed
    ensures q.Valid() && a.Valid() && b.Valid() && Apart(q, a) && Apart(q, b)
    ensures unchanged(a) && unchanged(b) && a.Contents() == old(a.Contents()) && b.Contents() == old(b.Contents())
    ensures var before := old(q.Contents());
            if before == [] then r == None && q.Contents() == []
            else r == Some(before[0]) && q.Contents() == before[1..]
  {
    hide Refs, Distinct, Remove;
    ghost var ns := q.nodes;
    r := TakeFirst(q);
    SmallerSelf(a);
    SmallerSelf(b);
    StillApart(q, ns, a, a.nodes);
    StillApart(q, ns, b, b.nodes);
  }
}
