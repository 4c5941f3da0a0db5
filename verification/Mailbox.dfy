/**
 The lock-free mailbox between shards: producers push onto a shared stack with a
 retrying compare-and-swap, the owner takes the whole stack with one exchange,
 reverses it in place and runs it. Every atomic access and every write to a node is a
 step of its own, and the steps of all threads interleave freely. Addresses freed by
 the owner may be handed out again at once.
 */
module Mailboxes {
  import opened Options

  type Addr = nat
  type Ptr = Option<Addr>

  /** A queued task, tagged with the producer that pushed it. */
  datatype Item<V> = Item(producer: nat, value: V)

  datatype Node<V> = Node(next: Ptr, item: Item<V>)

  /** Where a producer is in `push`: with a node but no head read yet, before storing the link, before the swap. */
  datatype Producer =
    | Idle
    | Allocated(node: Addr)
    | Loaded(node: Addr, expected: Ptr)
    | Linked(node: Addr, expected: Ptr)

  /** Where the owner is in `drain`. */
  datatype Consumer =
    | Resting
    | Reversing(list: Ptr, prev: Ptr)
    | Running(prev: Ptr, count: nat)

  /** `stack`, `unreversed` and `reversed` name the nodes of the three lists; `pushed` and `ran` log the completed
      swaps and runs. */
  datatype State<V> = State(
    heap: map<Addr, Node<V>>,
    head: Ptr,
    producers: map<nat, Producer>,
    consumer: Consumer,
    stack: seq<Addr>,
    unreversed: seq<Addr>,
    reversed: seq<Addr>,
    pushed: seq<Item<V>>,
    ran: seq<Item<V>>)

  ghost predicate Init<V>(s: State<V>) {
    && s.heap == map[] && s.head == None && s.consumer == Resting
    && (forall p :: p in s.producers ==> s.producers[p] == Idle)
    && s.stack == [] && s.unreversed == [] && s.reversed == [] && s.pushed == [] && s.ran == []
  }

  // ---------------------------------------------------------------------------
  // Producer steps
  // ---------------------------------------------------------------------------

  /** `new Node`: any address not in use, also one freed a moment ago. */
  ghost predicate Allocate<V>(s: State<V>, s': State<V>, p: nat, a: Addr, v: V, junk: Ptr) {
    && p in s.producers && s.producers[p] == Idle && a !in s.heap
    && s' == s.(heap := s.heap[a := Node(junk, Item(p, v))], producers := s.producers[p := Allocated(a)])
  }

  ghost predicate LoadHead<V>(s: State<V>, s': State<V>, p: nat) {
    && p in s.producers && s.producers[p].Allocated?
    && s' == s.(producers := s.producers[p := Loaded(s.producers[p].node, s.head)])
  }

  ghost predicate StoreNext<V>(s: State<V>, s': State<V>, p: nat) {
    && p in s.producers && s.producers[p].Loaded? && s.producers[p].node in s.heap
    && var a := s.producers[p].node;
       s' == s.(heap := s.heap[a := Node(s.producers[p].expected, s.heap[a].item)],
                producers := s.producers[p := Linked(a, s.producers[p].expected)])
  }

  /** The swap succeeds: it compares addresses only. */
  ghost predicate SwapSucceeds<V>(s: State<V>, s': State<V>, p: nat) {
    && p in s.producers && s.producers[p].Linked? && s.head == s.producers[p].expected && s.producers[p].node in s.heap
    && var a := s.producers[p].node;
       s' == s.(head := Some(a), producers := s.producers[p := Idle],
                stack := [a] + s.stack, pushed := s.pushed + [s.heap[a].item])
  }

  /** The swap fails, perhaps spuriously, and reads the head again. */
  ghost predicate SwapFails<V>(s: State<V>, s': State<V>, p: nat) {
    && p in s.producers && s.producers[p].Linked?
    && s' == s.(producers := s.producers[p := Loaded(s.producers[p].node, s.head)])
  }

  // ---------------------------------------------------------------------------
  // Owner steps
  // ---------------------------------------------------------------------------

  /** The exchange that takes the whole stack. */
  ghost predicate Exchange<V>(s: State<V>, s': State<V>) {
    && s.consumer == Resting
    && s' == (if s.head == None then s
              else s.(head := None, consumer := Reversing(s.head, None), stack := [], unreversed := s.stack))
  }

  ghost predicate ReverseOne<V>(s: State<V>, s': State<V>) {
    && s.consumer.Reversing? && s.consumer.list.Some? && s.consumer.list.value in s.heap && s.unreversed != []
    && var a := s.consumer.list.value;
       s' == s.(heap := s.heap[a := Node(s.consumer.prev, s.heap[a].item)],
                consumer := Reversing(s.heap[a].next, Some(a)),
                unreversed := s.unreversed[1..], reversed := [a] + s.reversed)
  }

  ghost predicate StartRunning<V>(s: State<V>, s': State<V>) {
    && s.consumer.Reversing? && s.consumer.list == None
    && s' == s.(consumer := Running(s.consumer.prev, 0))
  }

  /** Runs one task and deletes its node. */
  ghost predicate RunOne<V>(s: State<V>, s': State<V>) {
    && s.consumer.Running? && s.consumer.prev.Some? && s.consumer.prev.value in s.heap && s.reversed != []
    && var a := s.consumer.prev.value;
       s' == s.(heap := s.heap - {a}, consumer := Running(s.heap[a].next, s.consumer.count + 1),
                reversed := s.reversed[1..], ran := s.ran + [s.heap[a].item])
  }

  ghost predicate Finish<V>(s: State<V>, s': State<V>) {
    && s.consumer.Running? && s.consumer.prev == None
    && s' == s.(consumer := Resting)
  }

  ghost predicate ProducerStep<V(!new)>(s: State<V>, s': State<V>, p: nat) {
    || (exists a, v, junk :: Allocate(s, s', p, a, v, junk))
    || LoadHead(s, s', p) || StoreNext(s, s', p) || SwapSucceeds(s, s', p) || SwapFails(s, s', p)
  }

  ghost predicate ConsumerStep<V>(s: State<V>, s': State<V>) {
    Exchange(s, s') || ReverseOne(s, s') || StartRunning(s, s') || RunOne(s, s') || Finish(s, s')
  }

  ghost predicate Step<V(!new)>(s: State<V>, s': State<V>) {
    (exists p :: ProducerStep(s, s', p)) || ConsumerStep(s, s')
  }

  // ---------------------------------------------------------------------------
  // The invariant
  // ---------------------------------------------------------------------------

  /** From `p`, the links visit exactly `addrs`. */
  ghost predicate Chain<V>(heap: map<Addr, Node<V>>, p: Ptr, addrs: seq<Addr>)
    decreases |addrs|
  {
    if addrs == [] then p == None
    else p == Some(addrs[0]) && addrs[0] in heap && Chain(heap, heap[addrs[0]].next, addrs[1..])
  }

  ghost predicate Unique(addrs: seq<Addr>) {
    forall i, j :: 0 <= i < j < |addrs| ==> addrs[i] != addrs[j]
  }

  /** All nodes on a list. */
  ghost function Listed<V>(s: State<V>): seq<Addr> {
    s.stack + s.unreversed + s.reversed
  }

  ghost predicate Owns<V>(s: State<V>, p: nat, a: Addr) {
    p in s.producers && s.producers[p] != Idle && s.producers[p].node == a
  }

  ghost predicate Lists<V>(s: State<V>) {
    && Chain(s.heap, s.head, s.stack)
    && match s.consumer
       case Resting => s.unreversed == [] && s.reversed == []
       case Reversing(list, prev) => Chain(s.heap, list, s.unreversed) && Chain(s.heap, prev, s.reversed)
       case Running(prev, _) => s.unreversed == [] && Chain(s.heap, prev, s.reversed)
  }

  /** Every node belongs to one list position or to one producer, and nothing else is allocated. */
  ghost predicate Ownership<V>(s: State<V>) {
    && Unique(Listed(s))
    && (forall a :: a in Listed(s) ==> a in s.heap)
    && (forall p, a :: Owns(s, p, a) ==> a in s.heap && a !in Listed(s) && s.heap[a].item.producer == p)
    && (forall p, q, a :: Owns(s, p, a) && Owns(s, q, a) ==> p == q)
    && (forall a :: a in s.heap ==> a in Listed(s) || exists p :: Owns(s, p, a))
  }

  ghost predicate Links<V>(s: State<V>) {
    forall p :: p in s.producers && s.producers[p].Linked? && s.producers[p].node in s.heap ==>
      s.heap[s.producers[p].node].next == s.producers[p].expected
  }

  ghost function ItemsAt<V>(heap: map<Addr, Node<V>>, addrs: seq<Addr>): (items: seq<Item<V>>)
    requires forall a :: a in addrs ==> a in heap
    ensures |items| == |addrs|
  {
    if addrs == [] then [] else [heap[addrs[0]].item] + ItemsAt(heap, addrs[1..])
  }

  ghost function Reverse<T>(s: seq<T>): seq<T> {
    if s == [] then [] else Reverse(s[1..]) + [s[0]]
  }

  /** What is left of the batch being drained, in the order it will run. */
  ghost function Batch<V>(s: State<V>): seq<Item<V>>
    requires forall a :: a in Listed(s) ==> a in s.heap
  {
    Reverse(ItemsAt(s.heap, s.unreversed)) + ItemsAt(s.heap, s.reversed)
  }

  /** The abstract queue: the rest of the batch, then the stack, oldest first. */
  ghost function Queue<V>(s: State<V>): seq<Item<V>>
    requires forall a :: a in Listed(s) ==> a in s.heap
  {
    Batch(s) + Reverse(ItemsAt(s.heap, s.stack))
  }

  ghost predicate Structure<V>(s: State<V>) {
    Lists(s) && Ownership(s) && Links(s)
  }

  /** Tasks run so far, then the queue, are all the tasks pushed, in the order of their swaps. */
  ghost predicate Inv<V>(s: State<V>) {
    Structure(s) && s.pushed == s.ran + Queue(s)
  }

  // ---------------------------------------------------------------------------
  // Refinement: a step is an enqueue, a dequeue, or invisible
  // ---------------------------------------------------------------------------

  ghost predicate Enqueues<V>(s: State<V>, s': State<V>, x: Item<V>)
    requires Structure(s) && Structure(s')
  {
    Queue(s') == Queue(s) + [x] && s'.pushed == s.pushed + [x] && s'.ran == s.ran
  }

  ghost predicate Dequeues<V>(s: State<V>, s': State<V>, x: Item<V>)
    requires Structure(s) && Structure(s')
  {
    Queue(s) == [x] + Queue(s') && s'.pushed == s.pushed && s'.ran == s.ran + [x]
  }

  ghost predicate Invisible<V>(s: State<V>, s': State<V>)
    requires Structure(s) && Structure(s')
  {
    Queue(s') == Queue(s) && s'.pushed == s.pushed && s'.ran == s.ran
  }

  lemma {:induction false} ChainFrame<V>(heap: map<Addr, Node<V>>, heap': map<Addr, Node<V>>, p: Ptr, addrs: seq<Addr>)
    requires Chain(heap, p, addrs) && forall a :: a in addrs ==> a in heap && a in heap' && heap'[a] == heap[a]
    ensures Chain(heap', p, addrs)
    decreases |addrs|
  {
    if addrs != [] {
      ChainFrame(heap, heap', heap[addrs[0]].next, addrs[1..]);
    }
  }

  lemma {:induction false} ItemsFrame<V>(heap: map<Addr, Node<V>>, heap': map<Addr, Node<V>>, addrs: seq<Addr>)
    requires forall a :: a in addrs ==> a in heap && a in heap' && heap'[a].item == heap[a].item
    ensures ItemsAt(heap', addrs) == ItemsAt(heap, addrs)
  {
    if addrs != [] {
      ItemsFrame(heap, heap', addrs[1..]);
    }
  }

  /** The three lists are untouched when the nodes on them are. */
  lemma ListsFrame<V>(s: State<V>, s': State<V>)
    requires Structure(s) && Listed(s') == Listed(s)
    requires s'.stack == s.stack && s'.unreversed == s.unreversed && s'.reversed == s.reversed
    requires s'.head == s.head && s'.consumer == s.consumer
    requires forall a :: a in Listed(s) ==> a in s'.heap && s'.heap[a] == s.heap[a]
    ensures Lists(s') && Queue(s') == Queue(s) && Batch(s') == Batch(s)
  {
    assert forall a :: a in s.stack || a in s.unreversed || a in s.reversed ==> a in Listed(s);
    ChainFrame(s.heap, s'.heap, s.head, s.stack);
    ItemsFrame(s.heap, s'.heap, s.stack);
    ItemsFrame(s.heap, s'.heap, s.unreversed);
    ItemsFrame(s.heap, s'.heap, s.reversed);
    match s.consumer
    case Resting =>
    case Reversing(list, prev) =>
      ChainFrame(s.heap, s'.heap, list, s.unreversed);
      ChainFrame(s.heap, s'.heap, prev, s.reversed);
    case Running(prev, _) =>
      ChainFrame(s.heap, s'.heap, prev, s.reversed);
  }

  lemma AllocateStep<V>(s: State<V>, s': State<V>, p: nat, a: Addr, v: V, junk: Ptr)
    requires Structure(s) && Allocate(s, s', p, a, v, junk)
    ensures Structure(s') && Invisible(s, s') && Batch(s') == Batch(s)
  {
    assert Listed(s') == Listed(s);
    ListsFrame(s, s');
    AllocateOwnership(s, s', p, a, v, junk);
  }

  lemma AllocateOwnership<V>(s: State<V>, s': State<V>, p: nat, a: Addr, v: V, junk: Ptr)
    requires Ownership(s) && Links(s) && Allocate(s, s', p, a, v, junk)
    ensures Ownership(s') && Links(s')
  {
    hide Unique;
    assert Listed(s') == Listed(s);
    hide Listed;
    assert Owns(s', p, a);
    forall b | b in s'.heap ensures b in Listed(s') || exists q :: Owns(s', q, b) {
      if b != a && b !in Listed(s) {
        var q :| Owns(s, q, b);
        assert Owns(s', q, b);
      }
    }
    forall q, b | Owns(s', q, b) ensures b in s'.heap && b !in Listed(s') && s'.heap[b].item.producer == q {
      assert q != p ==> Owns(s, q, b);
    }
    forall q | q in s'.producers && s'.producers[q].Linked? && s'.producers[q].node in s'.heap
      ensures s'.heap[s'.producers[q].node].next == s'.producers[q].expected
    {
      assert Owns(s, q, s.producers[q].node);
    }
    forall q, r, b | Owns(s', q, b) && Owns(s', r, b) ensures q == r {
      assert (q != p ==> Owns(s, q, b)) && (r != p ==> Owns(s, r, b));
    }
  }

  /** Steps by which a producer keeps its node: reading the head, or writing the link of its own node. */
  lemma PrivateStep<V>(s: State<V>, s': State<V>, p: nat)
    requires Structure(s) && (LoadHead(s, s', p) || StoreNext(s, s', p) || SwapFails(s, s', p))
    ensures Structure(s') && Invisible(s, s') && Batch(s') == Batch(s)
  {
    assert Owns(s, p, s.producers[p].node);
    assert Listed(s') == Listed(s);
    ListsFrame(s, s');
    PrivateOwnership(s, s', p);
  }

  lemma PrivateOwnership<V>(s: State<V>, s': State<V>, p: nat)
    requires Ownership(s) && Links(s) && (LoadHead(s, s', p) || StoreNext(s, s', p) || SwapFails(s, s', p))
    ensures Ownership(s') && Links(s')
  {
    hide Unique;
    assert Listed(s') == Listed(s);
    hide Listed;
    assert Owns(s, p, s.producers[p].node);
    assert forall q, b :: Owns(s', q, b) <==> Owns(s, q, b);
    forall b | b in s'.heap ensures b in Listed(s') || exists q :: Owns(s', q, b) {
      if b !in Listed(s) {
        var q :| Owns(s, q, b);
        assert Owns(s', q, b);
      }
    }
    forall q | q in s'.producers && s'.producers[q].Linked? && s'.producers[q].node in s'.heap
      ensures s'.heap[s'.producers[q].node].next == s'.producers[q].expected
    {
      assert q != p ==> Owns(s, q, s.producers[q].node);
    }
  }

  lemma SwapStep<V>(s: State<V>, s': State<V>, p: nat)
    requires Structure(s) && SwapSucceeds(s, s', p)
    ensures Structure(s') && Enqueues(s, s', s.heap[s.producers[p].node].item) && Batch(s') == Batch(s)
    ensures s.heap[s.producers[p].node].item.producer == p
  {
    assert Owns(s, p, s.producers[p].node);
    SwapOwnership(s, s', p);
    SwapLists(s, s', p);
  }

  lemma SwapOwnership<V>(s: State<V>, s': State<V>, p: nat)
    requires Structure(s) && SwapSucceeds(s, s', p)
    ensures Ownership(s') && Links(s')
  {
    hide Lists;
    var a := s.producers[p].node;
    assert Owns(s, p, a);
    assert Listed(s') == [a] + Listed(s);
    assert forall q, b :: Owns(s', q, b) <==> Owns(s, q, b) && q != p;
    hide Listed;
    forall b | b in s'.heap ensures b in Listed(s') || exists q :: Owns(s', q, b) {
      if b != a && b !in Listed(s) {
        var q :| Owns(s, q, b);
        assert Owns(s', q, b);
      }
    }
  }

  lemma SwapLists<V>(s: State<V>, s': State<V>, p: nat)
    requires Structure(s) && SwapSucceeds(s, s', p) && Ownership(s')
    ensures Lists(s') && Batch(s') == Batch(s)
    ensures Queue(s') == Queue(s) + [s.heap[s.producers[p].node].item]
  {
    var a := s.producers[p].node;
    assert s'.stack[1..] == s.stack;
    assert forall b :: b in s.stack || b in s.unreversed || b in s.reversed ==> b in Listed(s) && b in s.heap;
    hide Links, Ownership, Unique, Owns, Listed;
    var before, items := Batch(s), ItemsAt(s.heap, s.stack);
    assert ItemsAt(s.heap, s'.stack) == [s.heap[a].item] + items;
    assert ([s.heap[a].item] + items)[1..] == items;
    assert before + (Reverse(items) + [s.heap[a].item]) == before + Reverse(items) + [s.heap[a].item];
  }

  lemma ExchangeStep<V>(s: State<V>, s': State<V>)
    requires Structure(s) && Exchange(s, s')
    ensures Structure(s') && Invisible(s, s')
    ensures s.head != None ==> Batch(s') == Queue(s)
  {
    assert s.head == None ==> s.stack == [];
    assert Listed(s') == Listed(s);
    assert forall q, b :: Owns(s', q, b) <==> Owns(s, q, b);
    var items := Reverse(ItemsAt(s.heap, s.stack));
    assert [] + [] + items == items && items + [] + [] == items;
  }

  lemma ReverseStep<V>(s: State<V>, s': State<V>)
    requires Structure(s) && ReverseOne(s, s')
    ensures Structure(s') && Invisible(s, s') && Batch(s') == Batch(s)
  {
    ReverseOwnership(s, s');
    ReverseLists(s, s');
  }

  lemma ReverseOwnership<V>(s: State<V>, s': State<V>)
    requires Structure(s) && ReverseOne(s, s')
    ensures Ownership(s') && Links(s')
  {
    hide Lists, Unique, Listed;
    ReverseListed(s, s');
    assert forall q, b :: Owns(s', q, b) <==> Owns(s, q, b);
    forall b | b in s'.heap ensures b in Listed(s') || exists q :: Owns(s', q, b) {
      if b !in Listed(s) {
        var q :| Owns(s, q, b);
        assert Owns(s', q, b);
      }
    }
    forall q | q in s'.producers && s'.producers[q].Linked? && s'.producers[q].node in s'.heap
      ensures s'.heap[s'.producers[q].node].next == s'.producers[q].expected
    {
      assert Owns(s, q, s.producers[q].node);
    }
  }

  lemma ReverseListed<V>(s: State<V>, s': State<V>)
    requires Structure(s) && ReverseOne(s, s')
    ensures Unique(Listed(s')) && s.consumer.list.value in Listed(s)
    ensures forall b :: b in Listed(s') <==> b in Listed(s)
  {
    hide Links, Owns;
    var a, u := s.consumer.list.value, s.unreversed;
    assert u == [a] + u[1..];
    hide Lists, Unique;
    assert Listed(s) == s.stack + ([a] + u[1..]) + s.reversed && Listed(s') == s.stack + u[1..] + ([a] + s.reversed);
    UniqueMoves(s.stack, u[1..], s.reversed, a);
  }

  lemma ReverseLists<V>(s: State<V>, s': State<V>)
    requires Structure(s) && ReverseOne(s, s') && Ownership(s')
    ensures Lists(s') && Queue(s') == Queue(s) && Batch(s') == Batch(s)
  {
    var a, u := s.consumer.list.value, s.unreversed;
    assert u == [a] + u[1..];
    assert Listed(s) == s.stack + ([a] + u[1..]) + s.reversed;
    assert forall b :: b in s.stack || b in u || b in s.reversed ==> b in Listed(s) && b in s.heap;
    UniqueMoves(s.stack, u[1..], s.reversed, a);
    hide Links, Ownership, Unique, Listed;
    ChainFrame(s.heap, s'.heap, s.head, s.stack);
    ItemsFrame(s.heap, s'.heap, s.stack);
    ChainFrame(s.heap, s'.heap, s.heap[a].next, u[1..]);
    ReverseItems(s.heap, s'.heap, u, s.reversed, a, s.consumer.prev);
  }

  /** One turn of the reversal loop, on the two lists alone. */
  lemma ReverseItems<V>(heap: map<Addr, Node<V>>, heap': map<Addr, Node<V>>, u: seq<Addr>, r: seq<Addr>, a: Addr,
      prev: Ptr)
    requires u != [] && u[0] == a && a !in u[1..] && a !in r && Chain(heap, prev, r)
    requires forall b :: b in u || b in r ==> b in heap
    requires heap' == heap[a := Node(prev, heap[a].item)]
    ensures Chain(heap', Some(a), [a] + r)
    ensures Reverse(ItemsAt(heap', u[1..])) + ItemsAt(heap', [a] + r) == Reverse(ItemsAt(heap, u)) + ItemsAt(heap, r)
  {
    assert ([a] + r)[1..] == r;
    ChainFrame(heap, heap', prev, r);
    ItemsFrame(heap, heap', u[1..]);
    ItemsFrame(heap, heap', r);
    var x, xs, rs := heap[a].item, ItemsAt(heap, u[1..]), ItemsAt(heap, r);
    assert ItemsAt(heap, u) == [x] + xs && ([x] + xs)[1..] == xs;
    assert ItemsAt(heap', [a] + r) == [x] + rs;
    assert Reverse(xs) + [x] + rs == Reverse(xs) + ([x] + rs);
  }

  /** Moving `a` from the second list to the third keeps the nodes distinct. */
  lemma UniqueMoves(stack: seq<Addr>, rest: seq<Addr>, reversed: seq<Addr>, a: Addr)
    requires Unique(stack + ([a] + rest) + reversed)
    ensures Unique(stack + rest + ([a] + reversed))
    ensures forall b :: b in stack + rest + ([a] + reversed) <==> b in stack + ([a] + rest) + reversed
    ensures a !in stack && a !in rest && a !in reversed
    ensures forall b :: b in stack ==> b !in rest && b !in reversed
    ensures forall b :: b in rest ==> b !in reversed
  {
    var old_, new_ := stack + ([a] + rest) + reversed, stack + rest + ([a] + reversed);
    var n, m := |stack|, |rest|;
    assert forall i :: 0 <= i < |new_| ==>
      new_[i] == old_[if i < n then i else if i < n + m then i + 1 else if i == n + m then n else i];
    assert old_[n] == a;
    assert forall i :: 0 <= i < n ==> old_[i] == stack[i];
    assert forall i {:trigger rest[i]} :: 0 <= i < m ==> old_[n + 1 + i] == rest[i];
    assert forall i {:trigger reversed[i]} :: 0 <= i < |reversed| ==> old_[n + 1 + m + i] == reversed[i];
  }

  lemma RunStep<V>(s: State<V>, s': State<V>)
    requires Structure(s) && RunOne(s, s')
    ensures Structure(s') && Dequeues(s, s', s.heap[s.consumer.prev.value].item)
    ensures Batch(s) == [s.heap[s.consumer.prev.value].item] + Batch(s')
  {
    RunOwnership(s, s');
    RunLists(s, s');
  }

  lemma RunListed<V>(s: State<V>, s': State<V>)
    requires Structure(s) && RunOne(s, s')
    ensures var a := s.consumer.prev.value;
      && Unique(Listed(s')) && a !in Listed(s') && s.reversed == [a] + s'.reversed
      && forall b :: b in Listed(s) <==> b in Listed(s') || b == a
  {
    hide Links, Owns;
    var a, r := s.consumer.prev.value, s.reversed;
    assert r == [a] + r[1..];
    assert Listed(s) == s.stack + ([a] + r[1..]) && Listed(s') == s.stack + r[1..];
    hide Lists, Unique;
    UniqueDrops(s.stack, r[1..], a);
  }

  lemma UniqueDrops(stack: seq<Addr>, rest: seq<Addr>, a: Addr)
    requires Unique(stack + ([a] + rest))
    ensures Unique(stack + rest) && a !in stack + rest
    ensures forall b :: b in stack + ([a] + rest) <==> b in stack + rest || b == a
  {
    var old_, new_, n := stack + ([a] + rest), stack + rest, |stack|;
    assert forall i :: 0 <= i < |new_| ==> new_[i] == old_[if i < n then i else i + 1];
    assert old_[n] == a;
  }

  lemma RunOwnership<V>(s: State<V>, s': State<V>)
    requires Structure(s) && RunOne(s, s')
    ensures Ownership(s') && Links(s')
  {
    RunListed(s, s');
    assert s.consumer.prev.value in Listed(s);
    assert forall q, b :: Owns(s', q, b) <==> Owns(s, q, b);
    hide Lists, Listed, Unique;
    forall b | b in s'.heap ensures b in Listed(s') || exists q :: Owns(s', q, b) {
      if b !in Listed(s) {
        var q :| Owns(s, q, b);
        assert Owns(s', q, b);
      }
    }
  }

  lemma RunLists<V>(s: State<V>, s': State<V>)
    requires Structure(s) && RunOne(s, s') && Ownership(s')
    ensures Lists(s')
    ensures var x := s.heap[s.consumer.prev.value].item; Queue(s) == [x] + Queue(s') && Batch(s) == [x] + Batch(s')
  {
    RunListed(s, s');
    var a, r := s.consumer.prev.value, s'.reversed;
    assert forall b :: b in s.stack || b in r ==> b in Listed(s') && b in s.heap;
    hide Links, Ownership, Unique, Listed;
    ChainFrame(s.heap, s'.heap, s.head, s.stack);
    ItemsFrame(s.heap, s'.heap, s.stack);
    RunItems(s.heap, s'.heap, a, r, Reverse(ItemsAt(s.heap, s.stack)));
  }

  /** Running the first node of a list, on the list alone; `ks` is what is queued behind it. */
  lemma RunItems<V>(heap: map<Addr, Node<V>>, heap': map<Addr, Node<V>>, a: Addr, r: seq<Addr>, ks: seq<Item<V>>)
    requires Chain(heap, Some(a), [a] + r) && heap' == heap - {a} && a !in r && a in heap
    requires forall b :: b in r ==> b in heap
    ensures Chain(heap', heap[a].next, r)
    ensures var x := heap[a].item;
      && [] + ItemsAt(heap, [a] + r) == [x] + ([] + ItemsAt(heap', r))
      && [] + ItemsAt(heap, [a] + r) + ks == [x] + ([] + ItemsAt(heap', r) + ks)
  {
    assert ([a] + r)[1..] == r;
    ChainFrame(heap, heap', heap[a].next, r);
    ItemsFrame(heap, heap', r);
    hide Chain;
    var x, xs := heap[a].item, ItemsAt(heap', r);
    assert ItemsAt(heap, [a] + r) == [x] + xs;
    hide ItemsAt;
    assert [] + ([x] + xs) == [x] + ([] + xs);
    Regroup([x], [] + xs, ks);
  }

  lemma TurnStep<V>(s: State<V>, s': State<V>)
    requires Structure(s) && (StartRunning(s, s') || Finish(s, s'))
    ensures Structure(s') && Invisible(s, s') && Batch(s') == Batch(s)
  {
    assert Listed(s') == Listed(s);
    assert forall q, b :: Owns(s', q, b) <==> Owns(s, q, b);
    assert s'.unreversed == s.unreversed == [];
  }

  /** Every step of every thread is one step of a first-in first-out queue, or none. */
  lemma StepRefines<V(!new)>(s: State<V>, s': State<V>)
    requires Structure(s) && Step(s, s')
    ensures Structure(s')
    ensures Invisible(s, s') || (exists x :: Enqueues(s, s', x)) || (exists x :: Dequeues(s, s', x))
  {
    if ConsumerStep(s, s') {
      if Exchange(s, s') {
        ExchangeStep(s, s');
      } else if ReverseOne(s, s') {
        ReverseStep(s, s');
      } else if RunOne(s, s') {
        RunStep(s, s');
      } else {
        TurnStep(s, s');
      }
    } else {
      var p :| ProducerStep(s, s', p);
      if SwapSucceeds(s, s', p) {
        SwapStep(s, s', p);
      } else if a, v, junk :| Allocate(s, s', p, a, v, junk) {
        AllocateStep(s, s', p, a, v, junk);
      } else {
        PrivateStep(s, s', p);
      }
    }
  }

  // ---------------------------------------------------------------------------
  // Runs
  // ---------------------------------------------------------------------------

  /** A run: an initial state, then one step of some thread after another. */
  ghost predicate IsRun<V(!new)>(run: seq<State<V>>) {
    if |run| <= 1 then |run| == 1 && Init(run[0])
    else IsRun(run[..|run| - 1]) && Step(run[|run| - 2], run[|run| - 1])
  }

  lemma InitInv<V>(s: State<V>)
    requires Init(s)
    ensures Inv(s)
  {
    assert forall p, a :: !Owns(s, p, a);
  }

  /** In every reachable state the tasks run, then the queue, are the tasks pushed in the order of their swaps. */
  lemma {:induction false} RunInv<V(!new)>(run: seq<State<V>>)
    requires IsRun(run)
    ensures Inv(run[|run| - 1])
    decreases |run|
  {
    hide Inv, Step, Init;
    if |run| == 1 {
      InitInv(run[0]);
    } else {
      RunInv(run[..|run| - 1]);
      StepInv(run[|run| - 2], run[|run| - 1]);
    }
  }

  lemma StepInv<V(!new)>(s: State<V>, s': State<V>)
    requires Inv(s) && Step(s, s')
    ensures Inv(s')
  {
    StepRefines(s, s');
    if x :| Enqueues(s, s', x) {
      Regroup(s.ran, Queue(s), [x]);
    } else if x :| Dequeues(s, s', x) {
      Regroup(s.ran, [x], Queue(s'));
    }
  }

  lemma Regroup<T>(a: seq<T>, b: seq<T>, c: seq<T>)
    ensures a + (b + c) == a + b + c
  {
  }

  /** The tasks of one producer, in order. */
  ghost function Of<V>(items: seq<Item<V>>, p: nat): seq<Item<V>> {
    if items == [] then []
    else Of(items[..|items| - 1], p) + if items[|items| - 1].producer == p then [items[|items| - 1]] else []
  }

  lemma {:induction false} OfPrefix<V>(a: seq<Item<V>>, b: seq<Item<V>>, p: nat)
    ensures Of(a, p) <= Of(a + b, p)
    decreases |b|
  {
    if b == [] {
      assert a + b == a;
    } else {
      assert (a + b)[..|a + b| - 1] == a + b[..|b| - 1];
      OfPrefix(a, b[..|b| - 1], p);
    }
  }

  /** Each producer's tasks run in the order it pushed them, none of them twice, and the rest are still queued. */
  lemma ProducerOrder<V(!new)>(run: seq<State<V>>, p: nat)
    requires IsRun(run)
    ensures var s := run[|run| - 1]; s.ran <= s.pushed && Of(s.ran, p) <= Of(s.pushed, p)
  {
    RunInv(run);
    var s := run[|run| - 1];
    OfPrefix(s.ran, Queue(s), p);
  }

  /** Nothing is lost: with the owner at rest and the stack empty, every pushed task has run and every node on a
      list is freed. */
  lemma DrainedMeansRun<V(!new)>(run: seq<State<V>>)
    requires IsRun(run)
    requires var s := run[|run| - 1]; s.consumer == Resting && s.head == None
    ensures var s := run[|run| - 1];
      && s.ran == s.pushed
      && forall a :: a in s.heap ==> exists p :: Owns(s, p, a)
  {
    RunInv(run);
    var s := run[|run| - 1];
    assert Listed(s) == [] && Queue(s) == [];
  }

  /** `took` is the batch of the drain in progress, `before` what had run when it began. */
  ghost predicate DrainOf<V>(s: State<V>, took: seq<Item<V>>, before: seq<Item<V>>) {
    && Structure(s) && s.ran + Batch(s) == before + took
    && (s.consumer.Reversing? ==> s.ran == before)
    && (s.consumer.Running? ==> s.consumer.count == |s.ran| - |before|)
  }

  lemma DrainBegins<V>(s: State<V>, s': State<V>)
    requires Structure(s) && Exchange(s, s') && s.head != None
    ensures DrainOf(s', Queue(s), s.ran)
  {
    ExchangeStep(s, s');
  }

  /** A drain stays on the batch its exchange took, whatever the producers do meanwhile. */
  lemma DrainContinues<V(!new)>(s: State<V>, s': State<V>, took: seq<Item<V>>, before: seq<Item<V>>)
    requires DrainOf(s, took, before) && Step(s, s') && s.consumer != Resting
    ensures DrainOf(s', took, before)
  {
    hide Lists, Links, Unique, Listed, Owns, Step, Batch;
    if RunOne(s, s') {
      RunStep(s, s');
      var x := s.heap[s.consumer.prev.value].item;
      Regroup(s.ran, [x], Batch(s'));
    } else {
      KeepsBatch(s, s');
    }
  }

  lemma KeepsBatch<V(!new)>(s: State<V>, s': State<V>)
    requires Structure(s) && Step(s, s') && s.consumer != Resting && !RunOne(s, s')
    ensures Structure(s') && Batch(s') == Batch(s) && s'.ran == s.ran
    ensures s'.consumer == s.consumer
      || (s.consumer.Reversing? && s'.consumer.Reversing?)
      || (s.consumer.Reversing? && s'.consumer.Running? && s'.consumer.count == 0)
      || s'.consumer == Resting
  {
    if ReverseOne(s, s') {
      ReverseStep(s, s');
    } else if StartRunning(s, s') || Finish(s, s') {
      TurnStep(s, s');
    } else {
      var p :| ProducerStep(s, s', p);
      if SwapSucceeds(s, s', p) {
        SwapStep(s, s', p);
      } else if a, v, junk :| Allocate(s, s', p, a, v, junk) {
        AllocateStep(s, s', p, a, v, junk);
      } else {
        PrivateStep(s, s', p);
      }
    }
  }

  /** When a drain ends it has run exactly the tasks its exchange took, in order, and counted each of them. */
  lemma DrainEnds<V>(s: State<V>, s': State<V>, took: seq<Item<V>>, before: seq<Item<V>>)
    requires DrainOf(s, took, before) && Finish(s, s')
    ensures s'.ran == before + took && s.consumer.count == |took|
  {
    assert Batch(s) == [];
  }

  lemma {:induction false} RunPrefix<V(!new)>(run: seq<State<V>>, n: nat)
    requires IsRun(run) && 0 < n <= |run|
    ensures IsRun(run[..n])
    decreases |run|
  {
    if n == |run| {
      assert run[..n] == run;
    } else {
      RunPrefix(run[..|run| - 1], n);
      assert run[..|run| - 1][..n] == run[..n];
    }
  }

  lemma StepAt<V(!new)>(run: seq<State<V>>, k: nat)
    requires IsRun(run) && k < |run|
    ensures Inv(run[k]) && (k + 1 < |run| ==> Step(run[k], run[k + 1]))
  {
    hide Inv, Step;
    RunPrefix(run, k + 1);
    RunInv(run[..k + 1]);
    if k + 1 < |run| {
      RunPrefix(run, k + 2);
    }
  }

  /** From its exchange on, a drain in progress is on the batch it took. */
  lemma {:induction false} DrainSpan<V(!new)>(run: seq<State<V>>, i: nat, k: nat, took: seq<Item<V>>,
      before: seq<Item<V>>)
    requires IsRun(run) && i < k < |run| && DrainOf(run[i + 1], took, before)
    requires forall n :: i < n < k ==> run[n].consumer != Resting
    ensures DrainOf(run[k], took, before)
    decreases k
  {
    hide IsRun, DrainOf, Inv, Step;
    if i + 1 < k {
      DrainSpan(run, i, k - 1, took, before);
      StepAt(run, k - 1);
      DrainContinues(run[k - 1], run[k], took, before);
    }
  }

  /** On every run, a drain from its exchange to its end runs exactly the tasks that were queued at the exchange, in
      order, and counts them, whatever producers push meanwhile. */
  lemma DrainRunsItsBatch<V(!new)>(run: seq<State<V>>, i: nat, j: nat)
    requires IsRun(run) && i < j && j + 1 < |run|
    requires Exchange(run[i], run[i + 1]) && run[i].head != None && Finish(run[j], run[j + 1])
    requires forall n :: i < n <= j ==> run[n].consumer != Resting
    ensures Structure(run[i])
    ensures run[j + 1].ran == run[i].ran + Queue(run[i]) && run[j].consumer.count == |Queue(run[i])|
  {
    StepAt(run, i);
    hide IsRun, Lists, Links, Unique, Step;
    var took, before := Queue(run[i]), run[i].ran;
    DrainBegins(run[i], run[i + 1]);
    DrainSpan(run, i, j, took, before);
    DrainEnds(run[j], run[j + 1], took, before);
  }
}
