/** The list scheduler of step 8: four chains of control blocks behind sentinel heads, four
    cursors and an index, updated in place. Each method is a ring operation of SchedRing. */
module ListScheduler {
  import opened Common
  import opened SchedRing

  const THREAD_JOINABLE: int := 2
  const THREAD_DETACHED: int := 3
  const LISTS: nat := 4

  // ---- Four lists as one sequence ---------------------------------------------------

  /** The number of nodes in the lists before the `k`-th. */
  ghost function Off<T>(lists: seq<seq<T>>, k: nat): nat
    requires k <= |lists|
  {
    if k == 0 then 0 else Off(lists, k - 1) + |lists[k - 1]|
  }

  /** The first `k` lists, one after the other. */
  ghost function FlatTo<T>(lists: seq<seq<T>>, k: nat): (s: seq<T>)
    requires k <= |lists|
    ensures |s| == Off(lists, k)
  {
    if k == 0 then [] else FlatTo(lists, k - 1) + lists[k - 1]
  }

  ghost function Flat<T>(lists: seq<seq<T>>): (s: seq<T>)
    ensures |s| == Off(lists, |lists|)
  {
    FlatTo(lists, |lists|)
  }

  lemma {:induction false} OffMonotone<T>(lists: seq<seq<T>>, i: nat, k: nat)
    requires i < k <= |lists|
    ensures Off(lists, i) + |lists[i]| <= Off(lists, k)
    decreases k
  {
    if i < k - 1 {
      OffMonotone(lists, i, k - 1);
    }
  }

  /** The place of the `j`-th node of list `k` in the concatenation. */
  ghost function Place<T>(lists: seq<seq<T>>, k: nat, j: nat): nat
    requires k <= |lists|
  {
    Off(lists, k) + j
  }

  lemma PlaceOfFirst<T>(lists: seq<seq<T>>)
    requires lists != []
    ensures Place(lists, 1, 0) == |lists[0]|
  {
    assert Off(lists, 1) == Off(lists, 0) + |lists[0]|;
  }

  /** The ring of the nodes in `lists`, the current one being the last of the first `pos` of
      list `index`. */
  ghost function RingOf<T>(lists: seq<seq<T>>, index: nat, pos: nat): (r: Ring<T>)
    requires index < |lists| && pos <= |lists[index]|
    ensures r.at <= |r.order|
  {
    OffMonotone(lists, index, |lists|);
    Ring(Flat(lists), Place(lists, index, pos))
  }

  lemma {:induction false} FlatAt<T>(lists: seq<seq<T>>, k: nat, i: nat, j: nat)
    requires i < k <= |lists| && j < |lists[i]|
    ensures Off(lists, i) + j < Off(lists, k)
    ensures FlatTo(lists, k)[Off(lists, i) + j] == lists[i][j]
    decreases k
  {
    OffMonotone(lists, i, k);
    if i < k - 1 {
      FlatAt(lists, k - 1, i, j);
    }
  }

  /** Every place of the flat sequence lies in one of the lists. */
  lemma {:induction false} FlatPlace<T>(lists: seq<seq<T>>, k: nat, g: nat) returns (i: nat, j: nat)
    requires k <= |lists| && g < Off(lists, k)
    ensures i < k && j < |lists[i]| && g == Off(lists, i) + j && FlatTo(lists, k)[g] == lists[i][j]
    decreases k
  {
    if g < Off(lists, k - 1) {
      i, j := FlatPlace(lists, k - 1, g);
    } else {
      i, j := k - 1, g - Off(lists, k - 1);
    }
  }

  lemma {:induction false} OffSame<T>(lists: seq<seq<T>>, lists': seq<seq<T>>, k: nat)
    requires k <= |lists| == |lists'| && forall i :: 0 <= i < k ==> lists'[i] == lists[i]
    ensures Off(lists', k) == Off(lists, k) && FlatTo(lists', k) == FlatTo(lists, k)
  {
    if k > 0 {
      OffSame(lists, lists', k - 1);
    }
  }

  lemma InsertAtEnd<T>(f: seq<T>, l: seq<T>, x: T)
    ensures f + (l + [x]) == (f + l)[..|f| + |l|] + [x] + (f + l)[|f| + |l|..]
  {
  }

  lemma InsertInFront<T>(f: seq<T>, l: seq<T>, e: nat, x: T)
    requires e <= |f|
    ensures (f[..e] + [x] + f[e..]) + l == (f + l)[..e] + [x] + (f + l)[e..]
  {
    SliceLeft(f, l, e);
  }

  lemma {:induction false} FlatAppend<T>(lists: seq<seq<T>>, k: nat, x: T, n: nat)
    requires k < n <= |lists|
    ensures Off(lists, k + 1) <= Off(lists, n)
    ensures var lists', e := lists[k := lists[k] + [x]], Off(lists, k + 1);
      && Off(lists', n) == Off(lists, n) + 1
      && FlatTo(lists', n) == FlatTo(lists, n)[..e] + [x] + FlatTo(lists, n)[e..]
    decreases n
  {
    var lists', e := lists[k := lists[k] + [x]], Off(lists, k + 1);
    var f, l := FlatTo(lists, n - 1), lists[n - 1];
    if n == k + 1 {
      OffSame(lists, lists', k);
      InsertAtEnd(f, l, x);
    } else {
      FlatAppend(lists, k, x, n - 1);
      InsertInFront(f, l, e, x);
    }
  }

  ghost function NoLists<T>(): (r: seq<seq<T>>)
    ensures |r| == LISTS && forall k :: 0 <= k < LISTS ==> r[k] == []
  {
    seq(LISTS, _ => [])
  }

  lemma {:induction false} NoNodes<T>(lists: seq<seq<T>>, n: nat)
    requires n <= |lists| && forall k :: 0 <= k < |lists| ==> lists[k] == []
    ensures FlatTo(lists, n) == []
  {
    if n > 0 {
      NoNodes(lists, n - 1);
    }
  }

  lemma SliceLeft<T>(a: seq<T>, b: seq<T>, j: nat)
    requires j <= |a|
    ensures (a + b)[..j] == a[..j] && (a + b)[j..] == a[j..] + b
  {
  }

  ghost function Without<T>(s: seq<T>, j: nat): (r: seq<T>)
    requires j < |s|
    ensures |r| == |s| - 1
  {
    s[..j] + s[j + 1..]
  }

  lemma WithoutRight<T>(a: seq<T>, b: seq<T>, j: nat)
    requires j < |b|
    ensures Without(a + b, |a| + j) == a + Without(b, j)
  {
  }

  lemma WithoutLeft<T>(a: seq<T>, b: seq<T>, j: nat)
    requires j < |a|
    ensures Without(a + b, j) == Without(a, j) + b
  {
  }

  lemma {:induction false} FlatRemove<T>(lists: seq<seq<T>>, k: nat, j: nat, n: nat)
    requires k < n <= |lists| && j < |lists[k]|
    ensures Off(lists, k) + j < Off(lists, n)
    ensures FlatTo(lists[k := Without(lists[k], j)], n) == Without(FlatTo(lists, n), Off(lists, k) + j)
    decreases n
  {
    var lists', g := lists[k := Without(lists[k], j)], Off(lists, k) + j;
    if n == k + 1 {
      OffSame(lists, lists', k);
      WithoutRight(FlatTo(lists, k), lists[k], j);
    } else {
      FlatRemove(lists, k, j, n - 1);
      WithoutLeft(FlatTo(lists, n - 1), lists[n - 1], g);
    }
  }

  /** List changes until a cursor stands before a node again. */
  ghost function Hops<T>(lists: seq<seq<T>>, index: nat, pos: nat): nat
    requires |lists| == LISTS && index < LISTS && pos <= |lists[index]|
  {
    if pos < |lists[index]| then 0
    else if lists[(index + 1) % 4] != [] then 1
    else if lists[(index + 2) % 4] != [] then 2
    else if lists[(index + 3) % 4] != [] then 3
    else 4
  }

  lemma HopDecreases<T>(lists: seq<seq<T>>, index: nat)
    requires |lists| == LISTS && index < LISTS && Off(lists, |lists|) > 0
    ensures Hops(lists, (index + 1) % 4, 0) < Hops(lists, index, |lists[index]|)
  {
    assert Off(lists, 1) == |lists[0]|;
    assert Off(lists, 2) == Off(lists, 1) + |lists[1]|;
    assert Off(lists, 3) == Off(lists, 2) + |lists[2]|;
    assert Off(lists, 4) == Off(lists, 3) + |lists[3]|;
  }

  // ---- Control blocks ---------------------------------------------------------------

  /** The part of `struct task_struct` that scheduling reads and writes. */
  class TaskStruct {
    var state: int
    var counter: int
    var priority: int

    constructor (state: int, counter: int, priority: int)
      ensures this.state == state && this.counter == counter && this.priority == priority
    {
      this.state, this.counter, this.priority := state, counter, priority;
    }
  }

  /** `struct pcb_struct`; the sentinel heads share one task. */
  class Pcb {
    const task: TaskStruct
    var nextp: Pcb?
    var prevp: Pcb?

    constructor (task: TaskStruct)
      ensures this.task == task && nextp == null && prevp == null
    {
      this.task := task;
      nextp, prevp := null, null;
    }
  }

  predicate IsRunnable(p: Pcb)
    reads p.task`state
  {
    p.task.state == TASK_RUNNING || p.task.state == THREAD_JOINABLE || p.task.state == THREAD_DETACHED
  }

  /** The `j`-th node of chain `k`, the head being the 0-th. */
  ghost function Node(head: seq<Pcb>, lists: seq<seq<Pcb>>, k: nat, j: nat): Pcb
    requires |head| == |lists| && k < |lists| && j <= |lists[k]|
  {
    if j == 0 then head[k] else lists[k][j - 1]
  }

  /** No node occurs twice. */
  ghost predicate AllApart(head: seq<Pcb>, lists: seq<seq<Pcb>>)
    requires |head| == LISTS == |lists|
  {
    && (forall k, k' :: 0 <= k < k' < LISTS ==> head[k] != head[k'])
    && (forall k, i, j :: 0 <= k < LISTS && 0 <= i < LISTS && 0 <= j < |lists[i]| ==> head[k] != lists[i][j])
    && (forall i, j, i', j' :: 0 <= i < LISTS && 0 <= i' < LISTS && 0 <= j < |lists[i]| && 0 <= j' < |lists[i']| ==>
          lists[i][j] == lists[i'][j'] ==> i == i' && j == j')
  }

  lemma NodeInjective(head: seq<Pcb>, lists: seq<seq<Pcb>>, k: nat, j: nat, k': nat, j': nat)
    requires |head| == LISTS == |lists| && AllApart(head, lists)
    requires k < LISTS && k' < LISTS && j <= |lists[k]| && j' <= |lists[k']|
    ensures Node(head, lists, k, j) == Node(head, lists, k', j') ==> k == k' && j == j'
  {
  }

  /** The `nextp` and `prevp` fields of a set of nodes, as values. */
  ghost function Nexts(nodes: set<Pcb>): map<Pcb, Pcb?>
    reads nodes
  {
    map p | p in nodes :: p.nextp
  }

  ghost function Prevs(nodes: set<Pcb>): map<Pcb, Pcb?>
    reads nodes
  {
    map p | p in nodes :: p.prevp
  }

  /** Each chain runs along `nextp` from its head to null; `prevp` is the predecessor, or null
      for nodes added as threads. */
  ghost predicate ChainOk(head: seq<Pcb>, lists: seq<seq<Pcb>>, nexts: map<Pcb, Pcb?>, prevs: map<Pcb, Pcb?>)
    requires |head| == LISTS == |lists|
  {
    && nexts.Keys == prevs.Keys
    && (forall k, j {:trigger Node(head, lists, k, j)} :: 0 <= k < LISTS && 0 <= j <= |lists[k]| ==>
          LinkOk(Node(head, lists, k, j), if j < |lists[k]| then lists[k][j] else null, nexts, prevs))
  }

  /** `p` is followed by `q`, and `q` points back to it or to nothing. */
  ghost predicate LinkOk(p: Pcb, q: Pcb?, nexts: map<Pcb, Pcb?>, prevs: map<Pcb, Pcb?>) {
    && p in nexts && nexts[p] == q
    && (q != null ==> q in nexts && q in prevs && (prevs[q] == null || prevs[q] == p))
  }

  /** Appending to the value view of the chains. */
  lemma ChainAppend(
      head: seq<Pcb>, lists: seq<seq<Pcb>>, nexts: map<Pcb, Pcb?>, prevs: map<Pcb, Pcb?>, k: nat, x: Pcb, back: Pcb?)
    requires |head| == LISTS == |lists| && AllApart(head, lists) && ChainOk(head, lists, nexts, prevs)
    requires k < LISTS && x !in nexts
    requires back == null || back == Node(head, lists, k, |lists[k]|)
    ensures var tail := Node(head, lists, k, |lists[k]|);
      ChainOk(head, lists[k := lists[k] + [x]], nexts[tail := x][x := null], prevs[x := back])
  {
    var tail, lists' := Node(head, lists, k, |lists[k]|), lists[k := lists[k] + [x]];
    var nexts', prevs' := nexts[tail := x][x := null], prevs[x := back];
    forall k', j {:trigger Node(head, lists', k', j)} | 0 <= k' < LISTS && 0 <= j <= |lists'[k']|
      ensures LinkOk(Node(head, lists', k', j), if j < |lists'[k']| then lists'[k'][j] else null, nexts', prevs')
    {
      if k' == k && j == |lists[k]| + 1 {
        assert Node(head, lists', k', j) == x;
      } else {
        var p := Node(head, lists, k', j);
        assert Node(head, lists', k', j) == p;
        assert LinkOk(p, if j < |lists[k']| then lists[k'][j] else null, nexts, prevs);
        NodeInjective(head, lists, k', j, k, |lists[k]|);
      }
    }
  }

  lemma ChainHolds(head: seq<Pcb>, lists: seq<seq<Pcb>>, nexts: map<Pcb, Pcb?>, prevs: map<Pcb, Pcb?>, k: nat, j: nat)
    requires |head| == LISTS == |lists| && ChainOk(head, lists, nexts, prevs) && k < LISTS && j <= |lists[k]|
    ensures Node(head, lists, k, j) in nexts && Node(head, lists, k, j) in prevs
    ensures nexts[Node(head, lists, k, j)] == if j < |lists[k]| then lists[k][j] else null
  {
  }

  lemma ApartAppend(head: seq<Pcb>, lists: seq<seq<Pcb>>, k: nat, x: Pcb)
    requires |head| == LISTS == |lists| && AllApart(head, lists) && k < LISTS
    requires (forall i :: 0 <= i < LISTS ==> head[i] != x)
    requires (forall i, j :: 0 <= i < LISTS && 0 <= j < |lists[i]| ==> lists[i][j] != x)
    ensures AllApart(head, lists[k := lists[k] + [x]])
  {
  }

  lemma AppendOff<T>(lists: seq<seq<T>>, index: nat, pos: nat, k: nat, x: T)
    requires |lists| == LISTS && index < LISTS && pos <= |lists[index]| && (pos == 0 ==> index == 0) && k < LISTS
    ensures var lists', at, e := lists[k := lists[k] + [x]], Place(lists, index, pos), Place(lists, k + 1, 0);
      Place(lists', index, pos) == if e < at then at + 1 else at
  {
    if k < index {
      FlatAppend(lists, k, x, index);
    } else {
      OffSame(lists, lists[k := lists[k] + [x]], index);
      OffMonotone(lists, index, k + 1);
    }
  }

  /** An append, in terms of the ring. */
  lemma AppendView<T>(lists: seq<seq<T>>, lists': seq<seq<T>>, index: nat, pos: nat, k: nat, x: T,
      r: Ring<T>, e: nat)
    requires |lists| == LISTS && index < LISTS && pos <= |lists[index]| && (pos == 0 ==> index == 0) && k < LISTS
    requires lists' == lists[k := lists[k] + [x]] && r == RingOf(lists, index, pos) && e == Place(lists, k + 1, 0)
    ensures e <= |r.order| && RingOf(lists', index, pos) == Insert(r, e, x)
  {
    FlatAppend(lists, k, x, |lists|);
    AppendOff(lists, index, pos, k, x);
  }

  lemma ApartRemove(head: seq<Pcb>, lists: seq<seq<Pcb>>, k: nat, j: nat)
    requires |head| == LISTS == |lists| && AllApart(head, lists) && k < LISTS && j < |lists[k]|
    ensures AllApart(head, lists[k := Without(lists[k], j)])
  {
  }

  /** Unlinking in the value view of the chains. */
  lemma ChainRemove(head: seq<Pcb>, lists: seq<seq<Pcb>>, nexts: map<Pcb, Pcb?>, prevs: map<Pcb, Pcb?>, k: nat, j: nat)
    requires |head| == LISTS == |lists| && AllApart(head, lists) && ChainOk(head, lists, nexts, prevs)
    requires k < LISTS && j + 1 < |lists[k]|
    ensures var before, after := Node(head, lists, k, j), lists[k][j + 1];
      ChainOk(head, lists[k := Without(lists[k], j)], nexts[before := after], prevs[after := before])
  {
    var before, after, lists' := Node(head, lists, k, j), lists[k][j + 1], lists[k := Without(lists[k], j)];
    var nexts', prevs' := nexts[before := after], prevs[after := before];
    ChainHolds(head, lists, nexts, prevs, k, j);
    assert after == Node(head, lists, k, j + 2);
    ChainHolds(head, lists, nexts, prevs, k, j + 2);
    forall k', i {:trigger Node(head, lists', k', i)} | 0 <= k' < LISTS && 0 <= i <= |lists'[k']|
      ensures LinkOk(Node(head, lists', k', i), if i < |lists'[k']| then lists'[k'][i] else null, nexts', prevs')
    {
      RemovedLink(head, lists, nexts, prevs, k, j, k', i);
    }
  }

  lemma RemovedLink(
      head: seq<Pcb>, lists: seq<seq<Pcb>>, nexts: map<Pcb, Pcb?>, prevs: map<Pcb, Pcb?>,
      k: nat, j: nat, k': nat, i: nat)
    requires |head| == LISTS == |lists| && AllApart(head, lists) && ChainOk(head, lists, nexts, prevs)
    requires k < LISTS && j + 1 < |lists[k]|
    requires k' < LISTS && i <= |lists[k := Without(lists[k], j)][k']|
    ensures var before, after, lists' := Node(head, lists, k, j), lists[k][j + 1], lists[k := Without(lists[k], j)];
      LinkOk(Node(head, lists', k', i), if i < |lists'[k']| then lists'[k'][i] else null,
             nexts[before := after], prevs[after := before])
  {
    var before, after, lists' := Node(head, lists, k, j), lists[k][j + 1], lists[k := Without(lists[k], j)];
    var i0 := if k' == k && i > j then i + 1 else i;
    var p := Node(head, lists, k', i0);
    assert Node(head, lists', k', i) == p;
    assert LinkOk(p, if i0 < |lists[k']| then lists[k'][i0] else null, nexts, prevs);
    if k' == k && i == j {
      assert after == Node(head, lists, k, j + 2);
      ChainHolds(head, lists, nexts, prevs, k, j + 2);
      assert lists'[k'][i] == after;
    } else {
      NodeInjective(head, lists, k', i0, k, j);
      if i0 < |lists[k']| {
        NodeInjective(head, lists, k', i0 + 1, k, j + 2);
      }
    }
  }

  lemma RingWithout<T>(order: seq<T>, at: nat, order': seq<T>, at': nat, g: nat)
    requires at <= |order| && g < |order| && g + 1 != at
    requires order' == Without(order, g) && at' == if g < at then at - 1 else at
    ensures Ring(order', at') == Remove(Ring(order, at), g)
  {
  }

  /** `lists'` is `lists` without the `j`-th node of list `k`, as far as the ring cares. */
  ghost predicate Shrunk<T>(lists: seq<seq<T>>, lists': seq<seq<T>>, k: nat, j: nat) {
    && |lists| == |lists'| && k < |lists| && j < |lists[k]| && Place(lists, k, j) < |Flat(lists)|
    && (forall i :: 0 <= i < |lists| ==> |lists'[i]| + (if i == k then 1 else 0) == |lists[i]|)
    && Flat(lists') == Without(Flat(lists), Place(lists, k, j))
  }

  lemma WithoutShrinks<T>(lists: seq<seq<T>>, k: nat, j: nat)
    requires k < |lists| && j < |lists[k]|
    ensures Shrunk(lists, lists[k := Without(lists[k], j)], k, j)
  {
    FlatRemove(lists, k, j, |lists|);
  }

  lemma {:induction false} OffShrink<T>(lists: seq<seq<T>>, lists': seq<seq<T>>, k: nat, n: nat)
    requires |lists'| == |lists| && k < |lists| && n <= |lists|
    requires forall i :: 0 <= i < |lists| ==> |lists'[i]| + (if i == k then 1 else 0) == |lists[i]|
    ensures Off(lists', n) + (if k < n then 1 else 0) == Off(lists, n)
  {
    if n > 0 {
      OffShrink(lists, lists', k, n - 1);
    }
  }

  lemma RemoveOff<T>(lists: seq<seq<T>>, lists': seq<seq<T>>, index: nat, pos: nat, pos': nat, k: nat, j: nat)
    requires Shrunk(lists, lists', k, j) && index < |lists| && pos <= |lists[index]| && (pos == 0 ==> index == 0)
    requires !(k == index && j + 1 == pos)
    requires pos' == if k == index && j + 1 < pos then pos - 1 else pos
    ensures Place(lists, k, j) + 1 != Place(lists, index, pos)
    ensures var at, g := Place(lists, index, pos), Place(lists, k, j);
      Place(lists', index, pos') == if g < at then at - 1 else at
  {
    OffShrink(lists, lists', k, index);
    if k < index {
      OffMonotone(lists, k, index);
    } else if index < k {
      OffMonotone(lists, index, k);
    }
  }

  /** Order and position of the ring once the node, which is at `g` of the order, is out of
      its list. */
  lemma RemovedFromLists<T>(lists: seq<seq<T>>, lists': seq<seq<T>>, index: nat, pos: nat, pos': nat, k: nat, j: nat,
      at: nat, g: nat)
    requires index < |lists| && pos <= |lists[index]| && (pos == 0 ==> index == 0) && k < |lists| && j < |lists[k]|
    requires lists' == lists[k := Without(lists[k], j)] && !(k == index && j + 1 == pos)
    requires pos' == if k == index && j + 1 < pos then pos - 1 else pos
    requires at == Place(lists, index, pos) <= |Flat(lists)| && g == Place(lists, k, j)
    ensures g < |Flat(lists)| && g + 1 != at && Flat(lists') == Without(Flat(lists), g)
    ensures Place(lists', index, pos') == if g < at then at - 1 else at
  {
    WithoutShrinks(lists, k, j);
    RemoveOff(lists, lists', index, pos, pos', k, j);
  }

  /** A removal, in terms of the ring. */
  lemma RingOfFewer<T>(lists: seq<seq<T>>, lists': seq<seq<T>>, index: nat, pos: nat, pos': nat, k: nat, j: nat,
      r: Ring<T>, g: nat)
    requires index < |lists| && pos <= |lists[index]| && (pos == 0 ==> index == 0) && k < |lists| && j < |lists[k]|
    requires lists' == lists[k := Without(lists[k], j)] && !(k == index && j + 1 == pos)
    requires pos' == if k == index && j + 1 < pos then pos - 1 else pos
    requires r == RingOf(lists, index, pos) && g == Place(lists, k, j)
    ensures g < |r.order| && g + 1 != r.at
    ensures pos' <= |lists'[index]| && RingOf(lists', index, pos') == Remove(r, g)
  {
    RemovedFromLists(lists, lists', index, pos, pos', k, j, r.at, g);
    RingWithout(r.order, r.at, Flat(lists'), Place(lists', index, pos'), g);
  }

  // ---- Where the search is ----------------------------------------------------------

  /** The search has passed over `passed` nodes and stands at `pos` of list `index`. */
  ghost predicate Stands<T>(lists: seq<seq<T>>, r: Ring<T>, index: nat, pos: nat, passed: nat) {
    && |lists| == LISTS && index < LISTS && pos <= |lists[index]|
    && r.order == Flat(lists) && r.at <= |r.order| && passed < |r.order|
    && var g := Place(lists, index, pos);
       g == Ahead(|r.order|, r.at, passed) || (g == |r.order| && Ahead(|r.order|, r.at, passed) == 0)
  }

  /** The next node of list `index` is the one that `passed` nodes lie before. */
  ghost predicate Facing<T>(lists: seq<seq<T>>, r: Ring<T>, index: nat, pos: nat, passed: nat) {
    && |lists| == LISTS && index < LISTS && pos < |lists[index]|
    && r.at <= |r.order| && passed < |r.order|
    && Place(lists, index, pos) == Ahead(|r.order|, r.at, passed)
    && r.order[Ahead(|r.order|, r.at, passed)] == lists[index][pos]
  }

  // ---- The scheduler ----------------------------------------------------------------

  class Scheduler {
    const head: seq<Pcb>
    var cursor: seq<Pcb>  // task_prio_table
    var index: nat
    var current: Pcb
    ghost var lists: seq<seq<Pcb>>  // the nodes behind each head
    ghost var pos: nat  // nodes of list `index` up to and including the current one
    ghost var repr: set<Pcb>

    ghost predicate Shape()
      reads this`lists, this`cursor, this`index, this`pos
    {
      |head| == LISTS && |cursor| == LISTS && |lists| == LISTS && index < LISTS && pos <= |lists[index]|
    }

    ghost predicate Chained()
      reads this`lists, this`repr, repr
      requires |head| == LISTS == |lists|
    {
      ChainOk(head, lists, Nexts(repr), Prevs(repr))
    }

    /** The active cursor is at `pos` of list `index`, the others are at their heads. */
    ghost predicate CursorsAt(index: nat, pos: nat)
      reads this`lists, this`cursor
      requires |head| == LISTS == |lists| && |cursor| == LISTS && index < LISTS && pos <= |lists[index]|
    {
      && cursor[index] == Node(head, lists, index, pos)
      && forall k :: 0 <= k < LISTS && k != index ==> cursor[k] == head[k]
    }

    ghost predicate Valid()
      reads this, repr
    {
      && Shape() && AllApart(head, lists) && Chained() && CursorsAt(index, pos) && current == cursor[index]
      && (pos == 0 ==> index == 0)  // only before the first decision
    }

    /** The ring of queued nodes. */
    ghost function View(): (r: Ring<Pcb>)
      reads this`lists, this`cursor, this`index, this`pos
      requires Shape()
      ensures r.at <= |r.order|
    {
      RingOf(lists, index, pos)
    }

    /** The queued nodes that may run: tasks that run (state 0) and threads that run, joinable
        (2) or detached (3). */
    ghost function RunnableNodes(): set<Pcb>
      reads this`lists, (set p | p in Flat(lists) :: p.task)`state
    {
      set p | p in Flat(lists) && p.task.state in {0, 2, 3}
    }

    /** `run` holds exactly the queued nodes that may run now. */
    ghost predicate Tracks(order: seq<Pcb>, run: set<Pcb>)
      reads (set p | p in order :: p.task)`state
    {
      forall p :: p in order ==> (p in run <==> p.task.state in {0, 2, 3})
    }

    lemma ViewValid()
      requires Valid()
      ensures View().Valid()
    {
      var order := View().order;
      forall g, g' | 0 <= g < g' < |order|
        ensures order[g] != order[g']
      {
        var i, j := FlatPlace(lists, |lists|, g);
        var i', j' := FlatPlace(lists, |lists|, g');
      }
    }

    constructor ()
      ensures Valid() && (forall k :: 0 <= k < LISTS ==> lists[k] == []) && fresh(repr)
      ensures View() == Ring([], 0)
    {
      ghost var nodes;
      var heads;
      heads, nodes := NewHeads();
      head, cursor, index, pos, current := heads, heads, 0, 0, heads[0];
      lists, repr := NoLists(), nodes;
      new;
      NoNodes(lists, |lists|);
    }

    static method NewHeads() returns (heads: seq<Pcb>, ghost nodes: set<Pcb>)
      ensures |heads| == LISTS && forall k, k' :: 0 <= k < k' < LISTS ==> heads[k] != heads[k']
      ensures fresh(nodes) && forall k :: 0 <= k < LISTS ==> heads[k] in nodes && heads[k].nextp == null
    {
      var init := new TaskStruct(TASK_RUNNING, 0, INIT_PRIORITY);
      heads, nodes := [], {};
      while |heads| < LISTS
        invariant |heads| <= LISTS && forall k, k' :: 0 <= k < k' < |heads| ==> heads[k] != heads[k']
        invariant fresh(nodes) && forall k :: 0 <= k < |heads| ==> heads[k] in nodes && heads[k].nextp == null
      {
        var h := new Pcb(init);
        heads, nodes := heads + [h], nodes + {h};
      }
    }

    // ---- _schedule ------------------------------------------------------------------

    /** Where the active cursor stands decides what its `nextp` is. */
    lemma NextOfCursor()
      requires Shape() && Chained() && CursorsAt(index, pos)
      ensures cursor[index].nextp == if pos < |lists[index]| then lists[index][pos] else null
    {
    }

    /** Leaving an exhausted list: its cursor goes back to the head. */
    method Hop()
      requires Shape() && Chained() && CursorsAt(index, pos)
      modifies `index, `pos, `cursor
      ensures Shape() && Chained() && index == (old(index) + 1) % 4 && pos == 0 && CursorsAt(index, pos)
    {
      cursor := cursor[index := head[index]];
      index, pos := index + 1, 0;
      if index == 4 {
        index := 0;
      }
    }

    /** `task_prio_table[index] = task_prio_table[index]->nextp`. */
    method Pass()
      requires Shape() && Chained() && CursorsAt(index, pos) && pos < |lists[index]|
      modifies `pos, `cursor
      ensures Shape() && Chained() && pos == old(pos) + 1 && CursorsAt(index, pos)
    {
      NextOfCursor();
      cursor := cursor[index := cursor[index].nextp];
      pos := pos + 1;
    }

    lemma StandsHop(r: Ring<Pcb>, index: nat, passed: nat)
      requires |lists| == LISTS && index < LISTS && Stands(lists, r, index, |lists[index]|, passed)
      ensures Stands(lists, r, (index + 1) % 4, 0, passed)
      ensures Hops(lists, (index + 1) % 4, 0) < Hops(lists, index, |lists[index]|)
    {
      HopDecreases(lists, index);
    }

    /** Before a node: it is the next one in ring order. */
    lemma StandsBefore(r: Ring<Pcb>, index: nat, pos: nat, passed: nat)
      requires Stands(lists, r, index, pos, passed) && pos < |lists[index]|
      ensures r.order[Ahead(|r.order|, r.at, passed)] == lists[index][pos]
      ensures Place(lists, index, pos) == Ahead(|r.order|, r.at, passed)
      ensures passed + 1 < |r.order| ==> Stands(lists, r, index, pos + 1, passed + 1)
    {
      FlatAt(lists, |lists|, index, pos);
    }

    lemma StandsAtStart()
      requires Shape() && View().order != []
      ensures Stands(lists, View(), index, pos, 0)
    {
    }

    /** The inner loop: on to a list with a node left. */
    method SkipExhausted(ghost r: Ring<Pcb>, ghost passed: nat)
      requires Shape() && Chained() && CursorsAt(index, pos) && Stands(lists, r, index, pos, passed)
      modifies `index, `pos, `cursor
      ensures Shape() && Chained() && CursorsAt(index, pos) && Stands(lists, r, index, pos, passed)
      ensures pos < |lists[index]|
    {
      NextOfCursor();
      while cursor[index].nextp == null
        invariant Shape() && Chained() && CursorsAt(index, pos)
        invariant cursor[index].nextp == if pos < |lists[index]| then lists[index][pos] else null
        invariant Stands(lists, r, index, pos, passed)
        decreases Hops(lists, index, pos)
      {
        StandsHop(r, index, passed);
        Hop();
        NextOfCursor();
      }
    }

    /** The test of the next node's state, in terms of the ring. */
    method AtRunnable(ghost r: Ring<Pcb>, ghost run: set<Pcb>, ghost passed: nat) returns (found: bool)
      requires Shape() && Chained() && CursorsAt(index, pos) && pos < |lists[index]|
      requires Stands(lists, r, index, pos, passed) && Tracks(r.order, run)
      requires passed <= FirstRunnable(r, run, 0) < |r.order|
      ensures found <==> passed == FirstRunnable(r, run, 0)
      ensures Facing(lists, r, index, pos, passed)
      ensures !found ==> Stands(lists, r, index, pos + 1, passed + 1)
    {
      StandsBefore(r, index, pos, passed);
      NextOfCursor();
      found := IsRunnable(cursor[index].nextp);
      if found {
        StopsHere(r, run, passed);
      } else {
        NotYetThere(r, run, passed);
      }
    }

    method NextIsRunnable(ghost r: Ring<Pcb>, ghost run: set<Pcb>, ghost passed: nat) returns (found: bool)
      requires Shape() && Chained() && CursorsAt(index, pos)
      requires Stands(lists, r, index, pos, passed) && Tracks(r.order, run)
      requires passed <= FirstRunnable(r, run, 0) < |r.order|
      modifies `index, `pos, `cursor
      ensures Shape() && Chained() && CursorsAt(index, pos) && Tracks(r.order, run)
      ensures found <==> passed == FirstRunnable(r, run, 0)
      ensures Facing(lists, r, index, pos, passed)
      ensures !found ==> Stands(lists, r, index, pos + 1, passed + 1)
    {
      SkipExhausted(r, passed);
      found := AtRunnable(r, run, passed);
    }

    method PassBlocked(ghost r: Ring<Pcb>, ghost run: set<Pcb>)
      requires Shape() && Chained() && CursorsAt(index, pos) && pos < |lists[index]| && Tracks(r.order, run)
      modifies `pos, `cursor
      ensures Shape() && Chained() && pos == old(pos) + 1 && CursorsAt(index, pos) && Tracks(r.order, run)
    {
      Pass();
    }

    /** One round of the outer loop: it stops before a runnable node or passes over one that
        is not. */
    method SearchRound(ghost r: Ring<Pcb>, ghost run: set<Pcb>, ghost passed: nat) returns (found: bool)
      requires Shape() && Chained() && CursorsAt(index, pos)
      requires Stands(lists, r, index, pos, passed) && Tracks(r.order, run)
      requires passed <= FirstRunnable(r, run, 0) < |r.order|
      modifies `index, `pos, `cursor
      ensures Shape() && Chained() && CursorsAt(index, pos) && Tracks(r.order, run)
      ensures found <==> passed == FirstRunnable(r, run, 0)
      ensures if found then Facing(lists, r, index, pos, passed) else Stands(lists, r, index, pos, passed + 1)
    {
      found := NextIsRunnable(r, run, passed);
      if !found {
        PassBlocked(r, run);
      }
    }

    /** The outer loop: from the current position to just before the next runnable node. It
        ends when there is one, and as `IdleRound` and `IdleHop` show only then. */
    method Search(ghost run: set<Pcb>)
      requires Shape() && Chained() && CursorsAt(index, pos) && SomeRunnable(View(), run)
      requires Tracks(View().order, run)
      modifies `index, `pos, `cursor
      ensures Shape() && Chained() && CursorsAt(index, pos)
      ensures Facing(lists, old(View()), index, pos, FirstRunnable(old(View()), run, 0))
    {
      ghost var r := View();
      ghost var stop, passed := FirstRunnable(r, run, 0), 0;
      SomeRunnableIsFound(r, run);
      StandsAtStart();
      var found := false;
      while !found
        invariant Shape() && Chained() && CursorsAt(index, pos) && Tracks(r.order, run)
        invariant passed <= stop
        invariant if found then passed == stop && Facing(lists, r, index, pos, passed)
                  else Stands(lists, r, index, pos, passed)
        decreases stop - passed, !found
      {
        found := SearchRound(r, run, passed);
        if !found {
          passed := passed + 1;
        }
      }
    }

    /** One round of the outer loop without a runnable node: it passes on and leaves the same
        situation for the next round, so the loop never ends. */
    method IdleRound(ghost r: Ring<Pcb>) returns (found: bool)
      requires Shape() && Chained() && CursorsAt(index, pos) && r == View() && r.order != []
      requires Tracks(r.order, {})
      modifies `index, `pos, `cursor
      ensures Shape() && Chained() && CursorsAt(index, pos) && View().order == r.order
      ensures Tracks(r.order, {}) && !found
    {
      StandsAtStart();
      SkipExhausted(r, 0);
      found := AtBlocked(r);
      if !found {
        Pass();
      }
    }

    method AtBlocked(ghost r: Ring<Pcb>) returns (found: bool)
      requires Shape() && Chained() && CursorsAt(index, pos) && pos < |lists[index]|
      requires Stands(lists, r, index, pos, 0) && Tracks(r.order, {})
      ensures !found
    {
      StandsBefore(r, index, pos, 0);
      NextOfCursor();
      assert lists[index][pos] in r.order;
      found := IsRunnable(cursor[index].nextp);
    }

    /** One turn of the inner loop with nothing queued: the next list is exhausted as well, so
        that loop never ends. */
    method IdleHop()
      requires Shape() && Chained() && CursorsAt(index, pos) && forall k :: 0 <= k < LISTS ==> lists[k] == []
      modifies `index, `pos, `cursor
      ensures Shape() && Chained() && CursorsAt(index, pos) && cursor[index].nextp == null
    {
      Hop();
      NextOfCursor();
    }

    lemma Landed(r: Ring<Pcb>, run: set<Pcb>, index: nat, pos: nat, r': Ring<Pcb>)
      requires r.at <= |r.order| && SomeRunnable(r, run) && Facing(lists, r, index, pos, FirstRunnable(r, run, 0))
      requires r.order == Flat(lists) && r' == Decide(r, run)
      ensures RingOf(lists, index, pos + 1) == r'
      ensures 1 <= r'.at <= |r'.order| && Current(r') == lists[index][pos]
    {
    }

    method Land(ghost r: Ring<Pcb>, ghost run: set<Pcb>, ghost r': Ring<Pcb>)
      requires Shape() && Chained() && CursorsAt(index, pos) && r.at <= |r.order| && r.order == Flat(lists)
      requires SomeRunnable(r, run) && Facing(lists, r, index, pos, FirstRunnable(r, run, 0)) && r' == Decide(r, run)
      modifies `pos, `cursor
      ensures Shape() && Chained() && CursorsAt(index, pos) && pos >= 1
      ensures View() == r' && r'.at >= 1 && cursor[index] == Current(r')
    {
      Landed(r, run, index, pos, r');
      Pass();
    }

    /** The search and the final move of the cursor. */
    method Arrive(ghost run: set<Pcb>)
      requires Shape() && Chained() && CursorsAt(index, pos) && SomeRunnable(View(), run) && Tracks(View().order, run)
      modifies `index, `pos, `cursor
      ensures Shape() && Chained() && CursorsAt(index, pos) && pos >= 1
      ensures View() == Decide(old(View()), run) && View().at >= 1
      ensures cursor[index] == Current(View())
    {
      ghost var r := View();
      Search(run);
      Land(r, run, Decide(r, run));
    }

    method Follow(ghost r: Ring<Pcb>)
      requires Shape() && AllApart(head, lists) && Chained() && CursorsAt(index, pos) && pos >= 1
      requires View() == r && r.at >= 1 && cursor[index] == Current(r)
      modifies `current
      ensures Valid() && View() == r && current == Current(r)
    {
      current := cursor[index];
    }

    method SelectNext(ghost run: set<Pcb>)
      requires Valid() && SomeRunnable(View(), run) && Tracks(View().order, run)
      modifies `index, `current, `pos, `cursor
      ensures Valid()
      ensures View() == Decide(old(View()), run)
      ensures current == Current(View()) && Tracks(old(View()).order, run)
    {
      ghost var r, r' := View(), Decide(View(), run);
      Arrive(run);
      assert Tracks(r.order, run);
      Follow(r');
      assert Tracks(r.order, run);
    }

    /** `*(task_prio_table[index]->counter)` is set to `counter`; nobody's state changes. */
    method SetCounter(counter: int, ghost run: set<Pcb>)
      requires Valid() && Tracks(View().order, run)
      modifies current.task`counter
      ensures Valid() && current.task.counter == counter && Tracks(View().order, run)
      ensures View() == old(View())
    {
      cursor[index].task.counter := counter;
    }

    /** The running task's counter is halved and topped up; then the search. */
    method ScheduleAmong(ghost run: set<Pcb>)
      requires Valid() && SomeRunnable(View(), run) && Tracks(View().order, run)
      modifies `index, `current, `pos, `cursor, current.task`counter
      ensures Valid()
      ensures View() == Decide(old(View()), run)
      ensures current == Current(View()) && Tracks(old(View()).order, run)
      ensures old(current).task.counter == old(current.task.counter) / 2 + old(current.task.priority)
    {
      ghost var r := View();
      SetCounter(cursor[index].task.counter / 2 + cursor[index].task.priority, run);
      assert Tracks(r.order, run);
      SelectNext(run);
    }

    /** `p` may run, and no node of the ring that comes up before it may: their states are not
        0, 2 or 3. */
    ghost predicate FirstToRun(r: Ring<Pcb>, p: Pcb)
      reads (set q | q in r.order :: q.task)`state
      requires r.at <= |r.order|
    {
      && p in r.order && p.task.state in {0, 2, 3}
      && forall i :: 0 <= i < Distance(r, p) ==> NodeAhead(r, i).task.state !in {0, 2, 3}
    }

    lemma SelectedMayRun(r: Ring<Pcb>, run: set<Pcb>, p: Pcb)
      requires r.Valid() && SomeRunnable(r, run) && Tracks(r.order, run) && p == Current(Decide(r, run))
      ensures FirstToRun(r, p)
    {
      SelectedIsFirst(r, run);
    }

    /** `_schedule`: some queued node is runnable, and the next such node in ring order becomes
        the current one. */
    method ScheduleNext()
      requires Valid() && SomeRunnable(View(), RunnableNodes())
      modifies `index, `current, `pos, `cursor, current.task`counter
      ensures Valid()
      ensures Steps(old(View()), Decision(old(RunnableNodes())), View())
      ensures current == Current(View()) && FirstToRun(old(View()), current)
      ensures old(current).task.counter == old(current.task.counter) / 2 + old(current.task.priority)
    {
      ViewValid();
      ghost var r, run := View(), RunnableNodes();
      ScheduleAmong(run);
      SelectedMayRun(r, run, current);
    }

    /** `schedule`: the running task gives up what is left of its time. */
    method Schedule()
      requires Valid() && SomeRunnable(View(), RunnableNodes())
      modifies `index, `current, `pos, `cursor, current.task`counter
      ensures Valid()
      ensures Steps(old(View()), Decision(old(RunnableNodes())), View())
      ensures current == Current(View()) && FirstToRun(old(View()), current)
      ensures old(current).task.counter == old(current.task.priority)
    {
      ViewValid();
      ghost var r, run := View(), RunnableNodes();
      SetCounter(0, run);
      ScheduleAmong(run);
      SelectedMayRun(r, run, current);
    }

    lemma NotYetThere(r: Ring<Pcb>, run: set<Pcb>, passed: nat)
      requires r.at <= |r.order| && passed <= FirstRunnable(r, run, 0) < |r.order|
      requires r.order[Ahead(|r.order|, r.at, passed)] !in run
      ensures passed < FirstRunnable(r, run, 0)
    {
    }

    lemma StopsHere(r: Ring<Pcb>, run: set<Pcb>, passed: nat)
      requires r.at <= |r.order| && passed <= FirstRunnable(r, run, 0) < |r.order|
      requires r.order[Ahead(|r.order|, r.at, passed)] in run
      ensures passed == FirstRunnable(r, run, 0)
    {
    }

    // ---- Appends --------------------------------------------------------------------

    /** From a cursor along `nextp` to the end of its chain. */
    method FindTail(k: nat) returns (tail: Pcb)
      requires Valid() && k < LISTS
      ensures tail == Node(head, lists, k, |lists[k]|) && tail in repr
    {
      tail := cursor[k];
      ghost var j := if k == index then pos else 0;
      ChainHolds(head, lists, Nexts(repr), Prevs(repr), k, j);
      while tail.nextp != null
        invariant j <= |lists[k]| && tail == Node(head, lists, k, j) && tail in repr
        invariant tail.nextp == if j < |lists[k]| then lists[k][j] else null
        decreases |lists[k]| - j
      {
        tail := tail.nextp;
        j := j + 1;
        ChainHolds(head, lists, Nexts(repr), Prevs(repr), k, j);
      }
    }

    /** The pointer assignments of an append. */
    static method LinkNode(tail: Pcb, node: Pcb, back: bool, ghost nodes: set<Pcb>)
      requires tail in nodes && node !in nodes && node.nextp == null && node.prevp == null
      modifies tail, node
      ensures Nexts(nodes + {node}) == old(Nexts(nodes))[tail := node][node := null]
      ensures Prevs(nodes + {node}) == old(Prevs(nodes))[node := if back then tail else null]
      ensures node.prevp == (if back then tail else null) && tail.prevp == old(tail.prevp)
    {
      if back {
        node.prevp := tail;
      }
      tail.nextp := node;
    }

    /** The chain with `node` behind its tail. */
    method Attach(tail: Pcb, k: nat, node: Pcb, back: bool)
      requires |head| == LISTS == |lists| && Chained() && AllApart(head, lists) && k < LISTS
      requires tail in repr && tail == Node(head, lists, k, |lists[k]|)
      requires node !in repr && node.nextp == null && node.prevp == null
      modifies `lists, `repr, tail, node
      ensures lists == old(lists)[k := old(lists)[k] + [node]] && repr == old(repr) + {node}
      ensures Chained()
      ensures node.prevp == (if back then tail else null) && tail.prevp == old(tail.prevp)
    {
      ChainAppend(head, lists, Nexts(repr), Prevs(repr), k, node, if back then tail else null);
      LinkNode(tail, node, back, repr);
      repr := repr + {node};
      lists := lists[k := lists[k] + [node]];
    }

    lemma NodesInRepr()
      requires Valid()
      ensures forall k :: 0 <= k < LISTS ==> head[k] in repr
      ensures forall k, j :: 0 <= k < LISTS && 0 <= j < |lists[k]| ==> lists[k][j] in repr
    {
      forall k: nat, j: nat | k < LISTS && j <= |lists[k]|
        ensures Node(head, lists, k, j) in repr
      {
        ChainHolds(head, lists, Nexts(repr), Prevs(repr), k, j);
      }
      assert forall k :: 0 <= k < LISTS ==> head[k] == Node(head, lists, k, 0);
      assert forall k, j :: 0 <= k < LISTS && 0 <= j < |lists[k]| ==> lists[k][j] == Node(head, lists, k, j + 1);
    }

    /** A block outside the structure is not in the ring. */
    lemma NotQueued(node: Pcb)
      requires Valid() && node !in repr
      ensures View().Valid() && node !in View().order
    {
      ViewValid();
      NodesInRepr();
      forall g | 0 <= g < |View().order|
        ensures View().order[g] != node
      {
        var k, j := FlatPlace(lists, |lists|, g);
      }
    }

    lemma CursorsAfterAppend(k: nat, node: Pcb)
      requires Valid() && k < LISTS
      ensures cursor[index] == Node(head, lists[k := lists[k] + [node]], index, pos)
    {
    }

    /** `node` goes to the end of chain `k`; `back` tells whether `prevp` is set as well. */
    method AppendTo(k: nat, node: Pcb, back: bool)
      requires Valid() && k < LISTS && node !in repr && node.nextp == null && node.prevp == null
      modifies `lists, `repr, repr, node
      ensures Valid() && lists == old(lists)[k := old(lists)[k] + [node]] && repr == old(repr) + {node}
      ensures index == old(index) && pos == old(pos) && current == old(current)
      ensures Steps(old(View()), Append(Place(old(lists), k + 1, 0), node), View())
      ensures node.prevp == if back then Node(head, old(lists), k, |old(lists)[k]|) else null
      ensures forall p :: p in old(repr) ==> p.prevp == old(p.prevp)
    {
      var tail := FindTail(k);
      NotQueued(node);
      AppendView(lists, lists[k := lists[k] + [node]], index, pos, k, node, View(), Place(lists, k + 1, 0));
      NodesInRepr();
      ApartAppend(head, lists, k, node);
      CursorsAfterAppend(k, node);
      Attach(tail, k, node, back);
    }

    /** A block just queued counts as runnable if its state says so. */
    lemma AppendedRuns(r: Ring<Pcb>, e: nat, node: Pcb)
      requires Shape() && Steps(r, Append(e, node), View()) && node.task.state in {0, 2, 3}
      ensures node in RunnableNodes()
    {
      assert View().order[e] == node;
    }

    /** `copy_process`, its control block and its place in the queues: `flags` names the list;
        for any other value the new block stays outside. */
    method CopyProcess(flags: nat) returns (pcb: Pcb)
      requires Valid()
      modifies `lists, `repr, repr
      ensures Valid() && fresh(pcb) && old(repr) <= repr <= old(repr) + {pcb}
      ensures pcb.task.state == 0 && pcb.task.priority == current.task.priority == pcb.task.counter
      ensures index == old(index) && pos == old(pos) && current == old(current)
      ensures flags < LISTS ==> Steps(old(View()), Append(Place(old(lists), flags + 1, 0), pcb), View())
      ensures flags < LISTS ==> lists == old(lists)[flags := old(lists)[flags] + [pcb]]
      ensures flags < LISTS ==>
        pcb in RunnableNodes() && pcb.prevp == Node(head, old(lists), flags, |old(lists)[flags]|)
      ensures flags >= LISTS ==> View() == old(View())
      ensures forall p :: p in old(repr) ==> p.prevp == old(p.prevp)
    {
      var task := new TaskStruct(TASK_RUNNING, current.task.priority, current.task.priority);
      pcb := new Pcb(task);
      if flags < LISTS {
        ghost var r, e := View(), Place(lists, flags + 1, 0);
        AppendTo(flags, pcb, true);
        AppendedRuns(r, e, pcb);
      }
    }

    /** `add_thread`: a joinable thread at the end of list 0, without a back pointer. */
    method AddThread() returns (pcb: Pcb)
      requires Valid()
      modifies `lists, `repr, repr
      ensures Valid() && fresh(pcb)
      ensures pcb.task.state == 2 && pcb.task.priority == 2 == pcb.task.counter
      ensures pcb in RunnableNodes() && pcb.prevp == null
      ensures index == old(index) && pos == old(pos) && current == old(current)
      ensures Steps(old(View()), Append(|old(lists)[0]|, pcb), View())
    {
      var task := new TaskStruct(THREAD_JOINABLE, 2, 2);
      pcb := new Pcb(task);
      PlaceOfFirst(lists);
      ghost var r, e := View(), Place(lists, 1, 0);
      AppendTo(0, pcb, false);
      AppendedRuns(r, e, pcb);
    }

    // ---- Unlink ---------------------------------------------------------------------

    /** The pointer assignments of END_Thread; `fault` tells that the source dereferences a
        null pointer. */
    static method UnlinkNode(node: Pcb, ghost nodes: set<Pcb>) returns (fault: bool)
      requires node in nodes && node.prevp in nodes + {null} && node.nextp in nodes + {null}
      requires node.nextp != node.prevp || node.nextp == null
      modifies node.prevp, node.nextp
      ensures fault <==> old(node.prevp) == null || old(node.nextp) == null
      ensures !fault ==> Nexts(nodes) == old(Nexts(nodes))[old(node.prevp) := old(node.nextp)]
      ensures !fault ==> Prevs(nodes) == old(Prevs(nodes))[old(node.nextp) := old(node.prevp)]
    {
      if node.prevp == null {
        return true;
      }
      var before, after := node.prevp, node.nextp;
      before.nextp := after;
      if after == null {
        return true;
      }
      after.prevp := before;
      return false;
    }

    /** What the pointers of the `j`-th queued node of list `k` are. */
    lemma PointersOf(k: nat, j: nat)
      requires Valid() && k < LISTS && j < |lists[k]|
      ensures lists[k][j] in repr
      ensures lists[k][j].nextp == if j + 1 < |lists[k]| then lists[k][j + 1] else null
      ensures lists[k][j].prevp == null || lists[k][j].prevp == Node(head, lists, k, j)
      ensures Node(head, lists, k, j) in repr && Node(head, lists, k, j) != lists[k][j]
      ensures j + 1 < |lists[k]| ==> lists[k][j + 1] in repr && lists[k][j + 1] != Node(head, lists, k, j)
    {
      ChainHolds(head, lists, Nexts(repr), Prevs(repr), k, j);
      assert lists[k][j] == Node(head, lists, k, j + 1);
      ChainHolds(head, lists, Nexts(repr), Prevs(repr), k, j + 1);
      assert LinkOk(Node(head, lists, k, j), lists[k][j], Nexts(repr), Prevs(repr));
      if j + 1 < |lists[k]| {
        assert lists[k][j + 1] == Node(head, lists, k, j + 2);
        ChainHolds(head, lists, Nexts(repr), Prevs(repr), k, j + 2);
        NodeInjective(head, lists, k, j + 2, k, j);
      }
    }

    /** The chains without `node`. */
    method Detach(node: Pcb, ghost k: nat, ghost j: nat) returns (fault: bool)
      requires Valid() && k < LISTS && j < |lists[k]| && node == lists[k][j]
      modifies `lists, node.prevp, node.nextp
      ensures fault <==> old(node.prevp) == null || j + 1 == |old(lists)[k]|
      ensures lists == if fault then old(lists) else old(lists)[k := Without(old(lists)[k], j)]
      ensures !fault ==> Chained()
    {
      PointersOf(k, j);
      if j + 1 < |lists[k]| {
        ChainRemove(head, lists, Nexts(repr), Prevs(repr), k, j);
      }
      fault := UnlinkNode(node, repr);
      if !fault {
        lists := lists[k := Without(lists[k], j)];
      }
    }

    lemma CursorsAfterRemove(k: nat, j: nat)
      requires Valid() && k < LISTS && j < |lists[k]| && !(k == index && j + 1 == pos)
      ensures cursor[index] == Node(head, lists[k := Without(lists[k], j)], index,
                                    if k == index && j + 1 < pos then pos - 1 else pos)
    {
    }

    /** The queues without `node`, which is not the current one. */
    method TakeOut(node: Pcb, ghost k: nat, ghost j: nat) returns (fault: bool)
      requires Valid() && k < LISTS && j < |lists[k]| && node == lists[k][j] && !(k == index && j + 1 == pos)
      modifies `lists, `pos, node.prevp, node.nextp
      ensures fault <==> old(node.prevp) == null || j + 1 == |old(lists)[k]|
      ensures !fault ==> Valid()
      ensures !fault ==> lists == old(lists)[k := Without(old(lists)[k], j)]
      ensures !fault ==> pos == if k == index && j + 1 < old(pos) then old(pos) - 1 else old(pos)
    {
      ApartRemove(head, lists, k, j);
      CursorsAfterRemove(k, j);
      fault := Detach(node, k, j);
      if !fault && k == index && j + 1 < pos {
        pos := pos - 1;
      }
    }

    lemma NotCurrent(k: nat, j: nat)
      requires Valid() && k < LISTS && j < |lists[k]| && lists[k][j] != current
      ensures !(k == index && j + 1 == pos)
    {
    }

    lemma CurrentInView()
      requires Valid() && View().at >= 1
      ensures Current(View()) == current
    {
      assert Off(lists, 0) == 0;
      FlatAt(lists, |lists|, index, pos - 1);
    }

    /** A queued node other than the current one can be unlinked from the ring. */
    lemma CanUnlink(k: nat, j: nat)
      requires Valid() && k < LISTS && j < |lists[k]| && lists[k][j] != current
      ensures Enabled(View(), Event.Unlink(lists[k][j]))
      ensures IndexOf(View().order, lists[k][j]) == Place(lists, k, j)
    {
      ViewValid();
      FlatAt(lists, |lists|, k, j);
      if View().at >= 1 {
        CurrentInView();
      }
    }

    /** END_Thread: the daemon, running, takes another node out of its list. That works for a
        node that knows its predecessor and is not the last of its list, and for no other. */
    method Unlink(node: Pcb, ghost k: nat, ghost j: nat) returns (fault: bool)
      requires Valid() && k < LISTS && j < |lists[k]| && node == lists[k][j] && node != current
      modifies `lists, `pos, node.prevp, node.nextp
      ensures fault <==> old(node.prevp) == null || j + 1 == |old(lists)[k]|
      ensures !fault ==> Valid() && index == old(index) && current == old(current)
      ensures !fault ==> lists == old(lists)[k := Without(old(lists)[k], j)]
      ensures !fault ==> Steps(old(View()), Event.Unlink(node), View())
    {
      NotCurrent(k, j);
      CanUnlink(k, j);
      ghost var lists', pos' := lists[k := Without(lists[k], j)], if k == index && j + 1 < pos then pos - 1 else pos;
      RingOfFewer(lists, lists', index, pos, pos', k, j, View(), Place(lists, k, j));
      fault := TakeOut(node, k, j);
    }

    /** END_Thread for any other block that has a predecessor and a successor. */
    method EndOther(pcb: Pcb, ghost k: nat, ghost j: nat) returns (fault: bool)
      requires Valid() && k < LISTS && j + 1 < |lists[k]| && pcb == lists[k][j] && pcb != current && pcb.prevp != null
      modifies `lists, `pos, pcb.prevp, pcb.nextp
      ensures !fault && Valid() && pcb !in View().order
    {
      ghost var r := View();
      fault := Unlink(pcb, k, j);
      UnlinkedIsGone(r, pcb);
    }

    /** It works for a forked block that another one was forked behind. */
    method EndForked(flags: nat) returns (pcb: Pcb, fault: bool)
      requires Valid() && flags < LISTS
      modifies `lists, `repr, `pos, repr
      ensures !fault && Valid() && pcb !in View().order
    {
      pcb := CopyProcess(flags);
      ghost var j := |lists[flags]| - 1;
      var later := CopyProcess(flags);
      PointersOf(flags, j);
      fault := EndOther(pcb, flags, j);
    }

    /** The last node of a list has no successor whose `prevp` END_Thread could set. */
    lemma LastHasNoNext(k: nat)
      requires Valid() && k < LISTS && lists[k] != []
      ensures lists[k][|lists[k]| - 1].nextp == null
    {
      PointersOf(k, |lists[k]| - 1);
    }

    /** So the unlink can be made to fault: a block just forked is the last of its list, and
        taking it out dereferences a null pointer. */
    method EndNewest(flags: nat) returns (fault: bool)
      requires Valid() && flags < LISTS
      modifies `lists, `repr, `pos, repr
      ensures fault
    {
      var pcb := CopyProcess(flags);
      PointersOf(flags, |lists[flags]| - 1);
      fault := Unlink(pcb, flags, |lists[flags]| - 1);
    }
  }
}
