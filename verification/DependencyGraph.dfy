/** Ordering a project's tasks (core/modules/project_management/services/scheduling/graph.py):
    in-degrees, a heap of ready tasks by priority, name and id, and the check for cycles. */
module DependencyGraph {
  import opened Text
  import opened WorkCalendar

  type Id = string

  /** `priority` is the value of `_priority_value`; the dates are for the scheduling passes. */
  datatype Task = Task(priority: int, name: string, duration: int,
                       start: Option<int>, actualStart: Option<int>, actualEnd: Option<int>)

  datatype Dependency = Dependency(predecessor: Id, successor: Id, link: LinkType, lag: int)

  // ----- heap entries, compared as tuples ------------------------------------------------

  datatype Entry = Entry(priority: int, name: string, id: Id)

  predicate TextLess(a: string, b: string) {
    b != "" && (a == "" || a[0] < b[0] || (a[0] == b[0] && TextLess(a[1..], b[1..])))
  }

  predicate Less(a: Entry, b: Entry) {
    || a.priority < b.priority
    || (a.priority == b.priority && (TextLess(a.name, b.name) || (a.name == b.name && TextLess(a.id, b.id))))
  }

  /** Texts are compared at the first place where they differ; a beginning comes first. */
  lemma {:induction false} TextLessIsLexicographic(a: string, b: string)
    ensures TextLess(a, b)
       <==> exists k: nat :: k <= |a| && k < |b| && a[..k] == b[..k] && (k < |a| ==> a[k] < b[k])
  {
    if a != "" && b != "" && a[0] == b[0] {
      var x, y := a[1..], b[1..];
      TextLessIsLexicographic(x, y);
      if k: nat :| k <= |a| && k < |b| && a[..k] == b[..k] && (k < |a| ==> a[k] < b[k]) {
        assert k > 0;
        assert x[..k - 1] == a[..k][1..] && y[..k - 1] == b[..k][1..];
      }
      if k: nat :| k <= |x| && k < |y| && x[..k] == y[..k] && (k < |x| ==> x[k] < y[k]) {
        assert a[..k + 1] == [a[0]] + x[..k] && b[..k + 1] == [b[0]] + y[..k];
      }
    } else {
      assert a[..0] == b[..0];
      forall k: nat | 0 < k <= |a| && k < |b| ensures a[..k] != b[..k] { assert a[..k][0] != b[..k][0]; }
    }
  }

  lemma {:induction false} TextLessTransitive(a: string, b: string, c: string)
    requires TextLess(a, b) && TextLess(b, c)
    ensures TextLess(a, c)
  {
    if a != "" && a[0] == b[0] == c[0] { TextLessTransitive(a[1..], b[1..], c[1..]); }
  }

  lemma {:induction false} TextLessTotal(a: string, b: string)
    ensures TextLess(a, b) || TextLess(b, a) || a == b
    ensures !(TextLess(a, b) && TextLess(b, a))
  {
    if a != "" && b != "" && a[0] == b[0] {
      TextLessTotal(a[1..], b[1..]);
      assert a == [a[0]] + a[1..] && b == [b[0]] + b[1..];
    }
  }

  lemma LessTransitive(a: Entry, b: Entry, c: Entry)
    requires Less(a, b) && Less(b, c)
    ensures Less(a, c)
  {
    if TextLess(a.name, b.name) && TextLess(b.name, c.name) { TextLessTransitive(a.name, b.name, c.name); }
    if TextLess(a.id, b.id) && TextLess(b.id, c.id) { TextLessTransitive(a.id, b.id, c.id); }
  }

  lemma LessTotal(a: Entry, b: Entry)
    ensures Less(a, b) || Less(b, a) || a == b
    ensures !(Less(a, b) && Less(b, a))
  {
    TextLessTotal(a.name, b.name);
    TextLessTotal(a.id, b.id);
  }

  ghost predicate IsLeast(x: Entry, s: set<Entry>) {
    x in s && forall y :: y in s ==> !Less(y, x)
  }

  /** `heappop`: the least entry leaves the heap. */
  method PopLeast(heap: set<Entry>) returns (least: Entry, rest: set<Entry>)
    requires heap != {}
    ensures IsLeast(least, heap) && rest == heap - {least}
  {
    least :| least in heap;
    var todo := heap - {least};
    LessTotal(least, least);
    while todo != {}
      invariant todo <= heap && least in heap - todo
      invariant forall y :: y in heap && y !in todo ==> !Less(y, least)
      decreases todo
    {
      var x :| x in todo;
      todo := todo - {x};
      if Less(x, least) {
        forall y | y in heap && y !in todo ensures !Less(y, x) {
          if Less(y, x) {
            if y != x { LessTransitive(y, x, least); } else { LessTotal(x, x); }
          }
        }
        least := x;
      }
    }
    rest := heap - {least};
  }

  // ----- the graph ---------------------------------------------------------------------------

  function EntryOf(tasks: map<Id, Task>, t: Id): Entry
    requires t in tasks
  {
    Entry(tasks[t].priority, tasks[t].name, t)
  }

  /** Dependencies with both ends in the project, in their order. */
  function Filtered(tasks: map<Id, Task>, deps: seq<Dependency>): seq<Dependency> {
    if deps == [] then []
    else
      var last := deps[|deps| - 1];
      Filtered(tasks, deps[..|deps| - 1]) + if last.predecessor in tasks && last.successor in tasks then [last] else []
  }

  predicate Closed(tasks: map<Id, Task>, deps: seq<Dependency>) {
    forall k :: 0 <= k < |deps| ==> deps[k].predecessor in tasks && deps[k].successor in tasks
  }

  function Outgoing(deps: seq<Dependency>, t: Id): seq<Dependency> {
    if deps == [] then []
    else
      var last := deps[|deps| - 1];
      Outgoing(deps[..|deps| - 1], t) + if last.predecessor == t then [last] else []
  }

  function Incoming(deps: seq<Dependency>, t: Id): seq<Dependency> {
    if deps == [] then []
    else
      var last := deps[|deps| - 1];
      Incoming(deps[..|deps| - 1], t) + if last.successor == t then [last] else []
  }

  /** How many dependencies on unfinished predecessors `t` still waits for. */
  function Waiting(deps: seq<Dependency>, done: set<Id>, t: Id): nat {
    if deps == [] then 0
    else
      var last := deps[|deps| - 1];
      Waiting(deps[..|deps| - 1], done, t) + if last.successor == t && last.predecessor !in done then 1 else 0
  }

  /** How many of `links` lead to `t`. */
  function Leading(links: seq<Dependency>, t: Id): nat {
    if links == [] then 0
    else Leading(links[..|links| - 1], t) + if links[|links| - 1].successor == t then 1 else 0
  }

  predicate Edge(deps: seq<Dependency>, a: Id, b: Id) {
    exists k :: 0 <= k < |deps| && deps[k].predecessor == a && deps[k].successor == b
  }

  function Done(order: seq<Id>): set<Id> {
    set k | 0 <= k < |order| :: order[k]
  }

  /** All predecessors of `t` are done, and `t` is not. */
  predicate Ready(tasks: map<Id, Task>, deps: seq<Dependency>, done: set<Id>, t: Id) {
    t in tasks && t !in done && forall k :: 0 <= k < |deps| && deps[k].successor == t ==> deps[k].predecessor in done
  }

  function ReadyEntries(tasks: map<Id, Task>, deps: seq<Dependency>, done: set<Id>): set<Entry> {
    set t | t in tasks && Ready(tasks, deps, done, t) :: EntryOf(tasks, t)
  }

  lemma {:induction false} WaitingForNothing(deps: seq<Dependency>, done: set<Id>, t: Id)
    ensures Waiting(deps, done, t) == 0
       <==> forall k :: 0 <= k < |deps| && deps[k].successor == t ==> deps[k].predecessor in done
  {
    if deps != [] {
      var front := deps[..|deps| - 1];
      WaitingForNothing(front, done, t);
      forall k | 0 <= k < |front| ensures front[k] == deps[k] {}
    }
  }

  /** Finishing `x` settles exactly its outgoing dependencies. */
  lemma {:induction false} Finishing(deps: seq<Dependency>, done: set<Id>, x: Id, t: Id)
    requires x !in done
    ensures Waiting(deps, done, t) == Waiting(deps, done + {x}, t) + Leading(Outgoing(deps, x), t)
  {
    if deps != [] {
      var front, last := deps[..|deps| - 1], deps[|deps| - 1];
      Finishing(front, done, x, t);
      if last.predecessor == x {
        var links := Outgoing(front, x) + [last];
        assert Outgoing(deps, x) == links;
        assert links[..|links| - 1] == Outgoing(front, x);
        assert Leading(links, t) == Leading(Outgoing(front, x), t) + if last.successor == t then 1 else 0;
      } else {
        assert Outgoing(deps, x) == Outgoing(front, x);
      }
    }
  }

  lemma {:induction false} OutgoingLinks(deps: seq<Dependency>, x: Id, k: nat)
    requires k < |Outgoing(deps, x)|
    ensures Outgoing(deps, x)[k] in deps && Outgoing(deps, x)[k].predecessor == x
  {
    var front := deps[..|deps| - 1];
    if k < |Outgoing(front, x)| { OutgoingLinks(front, x, k); }
  }

  lemma {:induction false} LeadingSplit(links: seq<Dependency>, j: nat, t: Id)
    requires j <= |links|
    ensures Leading(links, t) >= Leading(links[..j], t)
    ensures j < |links| ==> Leading(links[..j + 1], t) == Leading(links[..j], t) + if links[j].successor == t then 1 else 0
  {
    if j < |links| {
      assert links[..j + 1][..j] == links[..j];
      var front := links[..|links| - 1];
      LeadingSplit(front, j, t);
      assert front[..j] == links[..j];
    } else {
      assert links[..j] == links;
    }
  }

  // ----- building the order ------------------------------------------------------------------------

  method CountInDegrees(tasks: map<Id, Task>, deps: seq<Dependency>) returns (indegree: map<Id, int>)
    requires Closed(tasks, deps)
    ensures indegree.Keys == tasks.Keys
    ensures forall t :: t in tasks ==> indegree[t] == Waiting(deps, {}, t)
  {
    indegree := map t | t in tasks :: 0;
    for k := 0 to |deps|
      invariant indegree.Keys == tasks.Keys
      invariant forall t :: t in tasks ==> indegree[t] == Waiting(deps[..k], {}, t)
    {
      assert deps[..k + 1][..k] == deps[..k];
      var succ := deps[k].successor;
      indegree := indegree[succ := indegree[succ] + 1];
    }
    assert deps[..|deps|] == deps;
  }

  /** `graph_succ`, `deps_by_predecessor` */
  method GroupByPredecessor(deps: seq<Dependency>) returns (m: map<Id, seq<Dependency>>)
    ensures forall t :: Outgoing(deps, t) == if t in m then m[t] else []
    ensures forall t :: t in m ==> m[t] != []
  {
    m := map[];
    for k := 0 to |deps|
      invariant forall t :: Outgoing(deps[..k], t) == if t in m then m[t] else []
      invariant forall t :: t in m ==> m[t] != []
    {
      assert deps[..k + 1][..k] == deps[..k];
      var p := deps[k].predecessor;
      m := m[p := (if p in m then m[p] else []) + [deps[k]]];
    }
    assert deps[..|deps|] == deps;
  }

  /** `deps_by_successor` */
  method GroupBySuccessor(deps: seq<Dependency>) returns (m: map<Id, seq<Dependency>>)
    ensures forall t :: Incoming(deps, t) == if t in m then m[t] else []
    ensures forall t :: t in m ==> m[t] != []
  {
    m := map[];
    for k := 0 to |deps|
      invariant forall t :: Incoming(deps[..k], t) == if t in m then m[t] else []
      invariant forall t :: t in m ==> m[t] != []
    {
      assert deps[..k + 1][..k] == deps[..k];
      var s := deps[k].successor;
      m := m[s := (if s in m then m[s] else []) + [deps[k]]];
    }
    assert deps[..|deps|] == deps;
  }

  /** The state between two pops: the heap holds exactly the ready tasks. */
  ghost predicate Consistent(tasks: map<Id, Task>, deps: seq<Dependency>, done: set<Id>, indegree: map<Id, int>, heap: set<Entry>) {
    && indegree.Keys == tasks.Keys
    && (forall t :: t in tasks ==> indegree[t] == Waiting(deps, done, t))
    && heap == ReadyEntries(tasks, deps, done)
  }

  /** Within the settling of a popped task, after `j` of its links. */
  ghost predicate Settling(tasks: map<Id, Task>, deps: seq<Dependency>, done: set<Id>, links: seq<Dependency>, j: nat,
                           indegree: map<Id, int>, heap: set<Entry>)
    requires j <= |links|
  {
    && indegree.Keys == tasks.Keys
    && (forall t :: t in tasks ==> indegree[t] == Waiting(deps, done, t) + Leading(links, t) - Leading(links[..j], t))
    && heap == set t | t in tasks && t !in done && indegree[t] == 0 :: EntryOf(tasks, t)
  }

  lemma ReadyByCount(tasks: map<Id, Task>, deps: seq<Dependency>, done: set<Id>, indegree: map<Id, int>)
    requires indegree.Keys == tasks.Keys && forall t :: t in tasks ==> indegree[t] == Waiting(deps, done, t)
    ensures ReadyEntries(tasks, deps, done) == set t | t in tasks && t !in done && indegree[t] == 0 :: EntryOf(tasks, t)
  {
    forall t | t in tasks ensures Ready(tasks, deps, done, t) <==> t !in done && indegree[t] == 0 {
      WaitingForNothing(deps, done, t);
    }
  }

  lemma SettleStep(tasks: map<Id, Task>, deps: seq<Dependency>, done: set<Id>, links: seq<Dependency>, j: nat,
                   indegree: map<Id, int>, heap: set<Entry>, indegree': map<Id, int>, heap': set<Entry>)
    requires j < |links| && Settling(tasks, deps, done, links, j, indegree, heap)
    requires links[j].successor in tasks && links[j].successor !in done
    requires var s := links[j].successor;
             && indegree' == indegree[s := indegree[s] - 1]
             && heap' == if indegree'[s] == 0 then heap + {EntryOf(tasks, s)} else heap
    ensures Settling(tasks, deps, done, links, j + 1, indegree', heap')
  {
    var s := links[j].successor;
    forall t | t in tasks
      ensures indegree'[t] == Waiting(deps, done, t) + Leading(links, t) - Leading(links[..j + 1], t)
    {
      LeadingSplit(links, j, t);
    }
    LeadingSplit(links, j + 1, s);
    assert indegree'[s] >= 0;
    forall e ensures e in heap' <==> e in set t | t in tasks && t !in done && indegree'[t] == 0 :: EntryOf(tasks, t) {
      if e in heap { assert e.id != s; }
    }
  }

  /** The inner loop: settle the outgoing links of what was just popped. */
  method Settle(tasks: map<Id, Task>, deps: seq<Dependency>, ghost done: set<Id>, x: Id, links: seq<Dependency>,
                indegree: map<Id, int>, heap: set<Entry>) returns (indegree': map<Id, int>, heap': set<Entry>)
    requires Closed(tasks, deps) && x in tasks && x !in done && links == Outgoing(deps, x)
    requires Downward(deps, done) && Ready(tasks, deps, done, x)
    requires Consistent(tasks, deps, done, indegree, heap + {EntryOf(tasks, x)}) && EntryOf(tasks, x) !in heap
    ensures Consistent(tasks, deps, done + {x}, indegree', heap')
  {
    ghost var after := done + {x};
    indegree', heap' := indegree, heap;
    SettleStart(tasks, deps, done, x, indegree, heap);
    for j := 0 to |links|
      invariant Settling(tasks, deps, after, links, j, indegree', heap')
    {
      OutgoingLinks(deps, x, j);
      FreshSuccessor(tasks, deps, done, x, links[j]);
      var s := links[j].successor;
      ghost var indegree0, heap0 := indegree', heap';
      indegree' := indegree'[s := indegree'[s] - 1];
      if indegree'[s] == 0 {
        heap' := heap' + {EntryOf(tasks, s)};
      }
      SettleStep(tasks, deps, after, links, j, indegree0, heap0, indegree', heap');
    }
    assert links[..|links|] == links;
    ReadyByCount(tasks, deps, after, indegree');
  }

  lemma SettleStart(tasks: map<Id, Task>, deps: seq<Dependency>, done: set<Id>, x: Id, indegree: map<Id, int>, heap: set<Entry>)
    requires x in tasks && x !in done
    requires Consistent(tasks, deps, done, indegree, heap + {EntryOf(tasks, x)}) && EntryOf(tasks, x) !in heap
    ensures Settling(tasks, deps, done + {x}, Outgoing(deps, x), 0, indegree, heap)
  {
    var links := Outgoing(deps, x);
    assert links[..0] == [];
    forall t | t in tasks ensures indegree[t] == Waiting(deps, done + {x}, t) + Leading(links, t) { Finishing(deps, done, x, t); }
    ReadyByCount(tasks, deps, done, indegree);
    forall e ensures e in heap <==> e in set t | t in tasks && t !in done + {x} && indegree[t] == 0 :: EntryOf(tasks, t) {
      if e in heap { assert e in heap + {EntryOf(tasks, x)}; }
    }
  }

  /** Finished tasks have finished predecessors only. */
  ghost predicate Downward(deps: seq<Dependency>, done: set<Id>) {
    forall k :: 0 <= k < |deps| && deps[k].successor in done ==> deps[k].predecessor in done
  }

  /** No link leads from a task just popped to a finished one. */
  lemma FreshSuccessor(tasks: map<Id, Task>, deps: seq<Dependency>, done: set<Id>, x: Id, link: Dependency)
    requires Downward(deps, done) && Ready(tasks, deps, done, x) && link in deps && link.predecessor == x
    ensures link.successor !in done + {x}
  {
  }

  // ----- what the order is ---------------------------------------------------------------------------

  /** Every task was the least of those ready when its turn came. */
  ghost predicate Greedy(tasks: map<Id, Task>, deps: seq<Dependency>, order: seq<Id>) {
    forall i :: 0 <= i < |order| ==> TakenInTurn(tasks, deps, order, i)
  }

  ghost predicate TakenInTurn(tasks: map<Id, Task>, deps: seq<Dependency>, order: seq<Id>, i: nat)
    requires i < |order|
  {
    order[i] in tasks && IsLeast(EntryOf(tasks, order[i]), ReadyEntries(tasks, deps, Done(order[..i])))
  }

  lemma DoneOneMore(order: seq<Id>, x: Id)
    ensures Done(order + [x]) == Done(order) + {x}
  {
    var more := order + [x];
    assert forall k :: 0 <= k < |order| ==> more[k] == order[k];
    assert more[|order|] == x;
  }

  lemma GreedyOneMore(tasks: map<Id, Task>, deps: seq<Dependency>, order: seq<Id>, x: Id)
    requires Greedy(tasks, deps, order) && x in tasks
    requires IsLeast(EntryOf(tasks, x), ReadyEntries(tasks, deps, Done(order)))
    ensures Greedy(tasks, deps, order + [x])
  {
    var more := order + [x];
    forall i | 0 <= i < |more| ensures TakenInTurn(tasks, deps, more, i) {
      assert more[..i] == order[..i];
      if i < |order| { assert TakenInTurn(tasks, deps, order, i); } else { assert order[..i] == order; }
    }
  }

  lemma LeastIsReady(tasks: map<Id, Task>, deps: seq<Dependency>, done: set<Id>, x: Id)
    requires x in tasks && EntryOf(tasks, x) in ReadyEntries(tasks, deps, done)
    ensures Ready(tasks, deps, done, x)
  {
  }

  lemma DownwardOneMore(tasks: map<Id, Task>, deps: seq<Dependency>, done: set<Id>, x: Id)
    requires Downward(deps, done) && Ready(tasks, deps, done, x)
    ensures Downward(deps, done + {x})
  {
  }

  /** What holds between two pops. */
  ghost predicate Sound(tasks: map<Id, Task>, deps: seq<Dependency>, order: seq<Id>) {
    && Greedy(tasks, deps, order) && |order| == |Done(order)| && Done(order) <= tasks.Keys && Downward(deps, Done(order))
  }

  lemma SoundOneMore(tasks: map<Id, Task>, deps: seq<Dependency>, order: seq<Id>, x: Id)
    requires Sound(tasks, deps, order) && x in tasks
    requires IsLeast(EntryOf(tasks, x), ReadyEntries(tasks, deps, Done(order)))
    ensures Sound(tasks, deps, order + [x]) && |order| + 1 <= |tasks|
    ensures Ready(tasks, deps, Done(order), x) && Done(order + [x]) == Done(order) + {x}
  {
    LeastIsReady(tasks, deps, Done(order), x);
    GreedyOneMore(tasks, deps, order, x);
    DoneOneMore(order, x);
    DownwardOneMore(tasks, deps, Done(order), x);
    SubsetSize(Done(order + [x]), tasks.Keys);
  }

  method InitialHeap(tasks: map<Id, Task>, deps: seq<Dependency>) returns (indegree: map<Id, int>, heap: set<Entry>)
    requires Closed(tasks, deps)
    ensures Consistent(tasks, deps, {}, indegree, heap)
  {
    indegree := CountInDegrees(tasks, deps);
    heap := set t | t in tasks && indegree[t] == 0 :: EntryOf(tasks, t);
    ReadyByCount(tasks, deps, {}, indegree);
    assert heap == ReadyEntries(tasks, deps, {});
  }

  /** One round of the main loop: pop the least ready task and settle its links. */
  method TakeNext(tasks: map<Id, Task>, deps: seq<Dependency>, succ: map<Id, seq<Dependency>>, order: seq<Id>,
                  indegree: map<Id, int>, heap: set<Entry>)
    returns (order': seq<Id>, indegree': map<Id, int>, heap': set<Entry>)
    requires Closed(tasks, deps) && heap != {} && Sound(tasks, deps, order)
    requires Consistent(tasks, deps, Done(order), indegree, heap)
    requires forall t :: Outgoing(deps, t) == if t in succ then succ[t] else []
    ensures Sound(tasks, deps, order') && Consistent(tasks, deps, Done(order'), indegree', heap')
    ensures |order| < |order'| <= |tasks|
  {
    var least, rest := PopLeast(heap);
    var x := least.id;
    assert x in tasks && least == EntryOf(tasks, x);
    SoundOneMore(tasks, deps, order, x);
    order' := order + [x];
    assert heap == rest + {least};
    indegree', heap' := Settle(tasks, deps, Done(order), x, if x in succ then succ[x] else [], indegree, rest);
  }

  /** The main loop on a graph without dangling dependencies. */
  method Order(tasks: map<Id, Task>, deps: seq<Dependency>) returns (order: seq<Id>)
    requires Closed(tasks, deps)
    ensures Sound(tasks, deps, order) && ReadyEntries(tasks, deps, Done(order)) == {}
  {
    var succ := GroupByPredecessor(deps);
    var indegree, heap := InitialHeap(tasks, deps);
    order := [];
    assert Done(order) == {};
    while heap != {}
      invariant Sound(tasks, deps, order) && Consistent(tasks, deps, Done(order), indegree, heap)
      decreases |tasks| - |order|
    {
      order, indegree, heap := TakeNext(tasks, deps, succ, order, indegree, heap);
    }
  }

  lemma SubsetSize<T>(a: set<T>, b: set<T>)
    requires a <= b
    ensures |a| <= |b| && (|a| == |b| ==> a == b)
  {
    assert |b - a| == |b| - |a|;
    if |a| == |b| { assert b - a == {}; }
  }

  datatype Ordering = Cycle | Ordered(order: seq<Id>, bySuccessor: map<Id, seq<Dependency>>, byPredecessor: map<Id, seq<Dependency>>)

  // ----- cycles -----------------------------------------------------------------------------------------

  ghost predicate Path(deps: seq<Dependency>, p: seq<Id>) {
    forall i :: 0 <= i < |p| - 1 ==> Edge(deps, p[i], p[i + 1])
  }

  ghost predicate IsCycle(deps: seq<Dependency>, p: seq<Id>) {
    |p| >= 2 && p[0] == p[|p| - 1] && Path(deps, p)
  }

  ghost predicate HasCycle(deps: seq<Dependency>) {
    exists p :: IsCycle(deps, p)
  }

  /** Every predecessor comes before its successors, each task once. */
  ghost predicate Topological(deps: seq<Dependency>, order: seq<Id>) {
    forall a, b, j :: Edge(deps, a, b) && 0 <= j < |order| && order[j] == b ==> a in order[..j]
  }

  lemma GreedyIsTopological(tasks: map<Id, Task>, deps: seq<Dependency>, order: seq<Id>)
    requires Greedy(tasks, deps, order)
    ensures Topological(deps, order)
    ensures forall i, j :: 0 <= i < j < |order| ==> order[i] != order[j]
  {
    forall a, b, j | Edge(deps, a, b) && 0 <= j < |order| && order[j] == b ensures a in order[..j] {
      assert TakenInTurn(tasks, deps, order, j);
      LeastIsReady(tasks, deps, Done(order[..j]), order[j]);
      var k :| 0 <= k < |deps| && deps[k].predecessor == a && deps[k].successor == b;
      assert a in Done(order[..j]);
    }
    forall i, j | 0 <= i < j < |order| ensures order[i] != order[j] {
      assert TakenInTurn(tasks, deps, order, j);
      LeastIsReady(tasks, deps, Done(order[..j]), order[j]);
      assert order[..j][i] == order[i];
    }
  }

  /** Along a path the position in a topological order only grows. */
  lemma {:induction false} PathAscends(deps: seq<Dependency>, order: seq<Id>, p: seq<Id>, i: nat, j: nat) returns (at: nat)
    requires Topological(deps, order) && Path(deps, p) && i < |p| && j < |order| && order[j] == p[i]
    ensures at <= j && order[at] == p[0] && (i > 0 ==> at < j)
    decreases i
  {
    if i == 0 {
      at := j;
    } else {
      assert Edge(deps, p[i - 1], p[i]);
      var m :| 0 <= m < j && order[..j][m] == p[i - 1];
      at := PathAscends(deps, order, p, i - 1, m);
    }
  }

  lemma OrderedHasNoCycle(tasks: map<Id, Task>, deps: seq<Dependency>, order: seq<Id>)
    requires Closed(tasks, deps) && Greedy(tasks, deps, order) && Done(order) == tasks.Keys
    ensures !HasCycle(deps)
  {
    GreedyIsTopological(tasks, deps, order);
    if HasCycle(deps) {
      var p :| IsCycle(deps, p);
      assert Edge(deps, p[|p| - 2], p[|p| - 1]);
      assert p[|p| - 1] in Done(order);
      var j :| 0 <= j < |order| && order[j] == p[|p| - 1];
      var at := PathAscends(deps, order, p, |p| - 1, j);
      assert false;
    }
  }

  ghost predicate FollowsWithin(deps: seq<Dependency>, rest: set<Id>, t: Id) {
    exists a :: a in rest && Edge(deps, a, t)
  }

  /** A walk against the arrows inside a set where everyone has a predecessor runs into
      itself. */
  lemma {:induction false} WalkBack(deps: seq<Dependency>, rest: set<Id>, p: seq<Id>)
    requires forall t {:trigger FollowsWithin(deps, rest, t)} :: t in rest ==> FollowsWithin(deps, rest, t)
    requires p != [] && Path(deps, p) && Done(p) <= rest && |Done(p)| == |p|
    ensures HasCycle(deps)
    decreases |rest| - |p|
  {
    assert p[0] in Done(p);
    assert FollowsWithin(deps, rest, p[0]);
    var a :| a in rest && Edge(deps, a, p[0]);
    var q := [a] + p;
    PathGrows(deps, p, a);
    if a in Done(p) {
      MeetsItself(deps, q);
    } else {
      SubsetSize(Done(q), rest);
      WalkBack(deps, rest, q);
    }
  }

  lemma MeetsItself(deps: seq<Dependency>, q: seq<Id>)
    requires q != [] && Path(deps, q) && q[0] in Done(q[1..])
    ensures HasCycle(deps)
  {
    var k :| 0 <= k < |q| - 1 && q[1..][k] == q[0];
    CloseCycle(deps, q, k + 1);
  }

  lemma CloseCycle(deps: seq<Dependency>, p: seq<Id>, k: nat)
    requires Path(deps, p) && 0 < k < |p| && p[k] == p[0]
    ensures HasCycle(deps)
  {
    CutPath(deps, p, k + 1);
    assert IsCycle(deps, p[..k + 1]);
  }

  lemma CutPath(deps: seq<Dependency>, p: seq<Id>, n: nat)
    requires Path(deps, p) && n <= |p|
    ensures Path(deps, p[..n])
  {
  }

  lemma PathGrows(deps: seq<Dependency>, p: seq<Id>, a: Id)
    requires p != [] && Path(deps, p) && Edge(deps, a, p[0])
    ensures Path(deps, [a] + p)
    ensures Done([a] + p) == Done(p) + {a} && ([a] + p)[1..] == p
    ensures a !in Done(p) ==> |Done([a] + p)| == |Done(p)| + 1
  {
    var q := [a] + p;
    forall i | 0 <= i < |q| - 1 ensures Edge(deps, q[i], q[i + 1]) {
      if i > 0 { assert Edge(deps, p[i - 1], p[i]); }
    }
    assert q[0] == a && forall k :: 0 <= k < |p| ==> q[k + 1] == p[k];
  }

  lemma StuckHasCycle(tasks: map<Id, Task>, deps: seq<Dependency>, done: set<Id>)
    requires Closed(tasks, deps) && done < tasks.Keys && ReadyEntries(tasks, deps, done) == {}
    ensures HasCycle(deps)
  {
    var rest := tasks.Keys - done;
    forall t | t in rest ensures FollowsWithin(deps, rest, t) { StuckFollows(tasks, deps, done, t); }
    var t :| t in tasks.Keys && t !in done;
    DoneOneMore([], t);
    assert [] + [t] == [t] && Done([]) == {};
    WalkBack(deps, rest, [t]);
  }

  lemma StuckFollows(tasks: map<Id, Task>, deps: seq<Dependency>, done: set<Id>, t: Id)
    requires Closed(tasks, deps) && ReadyEntries(tasks, deps, done) == {} && t in tasks && t !in done
    ensures FollowsWithin(deps, tasks.Keys - done, t)
  {
    assert EntryOf(tasks, t) !in ReadyEntries(tasks, deps, done);
    assert !Ready(tasks, deps, done, t);
    var k :| 0 <= k < |deps| && deps[k].successor == t && deps[k].predecessor !in done;
    assert Edge(deps, deps[k].predecessor, t);
  }

  lemma {:induction false} FilteredEdges(tasks: map<Id, Task>, deps: seq<Dependency>)
    ensures Closed(tasks, Filtered(tasks, deps))
    ensures forall a, b :: Edge(Filtered(tasks, deps), a, b) <==> Edge(deps, a, b) && a in tasks && b in tasks
  {
    if deps != [] {
      var front, last := deps[..|deps| - 1], deps[|deps| - 1];
      FilteredEdges(tasks, front);
      var known := Filtered(tasks, front);
      assert deps == front + [last];
      assert Filtered(tasks, deps) == if last.predecessor in tasks && last.successor in tasks then known + [last] else known;
      forall a, b ensures Edge(Filtered(tasks, deps), a, b) <==> Edge(deps, a, b) && a in tasks && b in tasks {
        EdgeOneMore(front, last, a, b);
        EdgeOneMore(known, last, a, b);
      }
    }
  }

  lemma EdgeOneMore(deps: seq<Dependency>, last: Dependency, a: Id, b: Id)
    ensures Edge(deps + [last], a, b) <==> Edge(deps, a, b) || (last.predecessor == a && last.successor == b)
  {
    var more := deps + [last];
    if Edge(deps, a, b) {
      var k :| 0 <= k < |deps| && deps[k].predecessor == a && deps[k].successor == b;
      assert more[k] == deps[k];
    }
    assert more[|deps|] == last;
  }

  method FilterDependencies(tasks: map<Id, Task>, deps: seq<Dependency>) returns (known: seq<Dependency>)
    ensures known == Filtered(tasks, deps) && Closed(tasks, known)
  {
    known := [];
    for k := 0 to |deps|
      invariant known == Filtered(tasks, deps[..k])
    {
      assert deps[..k + 1][..k] == deps[..k];
      if deps[k].predecessor in tasks && deps[k].successor in tasks {
        known := known + [deps[k]];
      }
    }
    assert deps[..|deps|] == deps;
    FilteredEdges(tasks, deps);
  }

  /** When no task is ready any more, comparing two lengths tells whether there is a cycle. */
  lemma OrderIsDecisive(tasks: map<Id, Task>, deps: seq<Dependency>, order: seq<Id>)
    requires Closed(tasks, deps) && Sound(tasks, deps, order) && ReadyEntries(tasks, deps, Done(order)) == {}
    ensures |order| != |tasks| <==> HasCycle(deps)
    ensures |order| == |tasks| ==> Done(order) == tasks.Keys && Topological(deps, order)
  {
    SubsetSize(Done(order), tasks.Keys);
    if |order| != |tasks| {
      assert Done(order) != tasks.Keys;
      StuckHasCycle(tasks, deps, Done(order));
    } else {
      OrderedHasNoCycle(tasks, deps, order);
      GreedyIsTopological(tasks, deps, order);
    }
  }

  /** `build_project_dependency_graph`: a cycle is reported exactly when the dependencies
      within the project have one; otherwise every task is listed once, after all its
      predecessors, the most urgent ready task always first. */
  method BuildProjectDependencyGraph(tasks: map<Id, Task>, deps: seq<Dependency>) returns (r: Ordering)
    ensures var known := Filtered(tasks, deps);
            if r.Cycle? then HasCycle(known)
            else && !HasCycle(known) && Done(r.order) == tasks.Keys && |r.order| == |tasks|
                 && Greedy(tasks, known, r.order) && Topological(known, r.order)
                 && (forall t :: Incoming(known, t) == if t in r.bySuccessor then r.bySuccessor[t] else [])
                 && (forall t :: Outgoing(known, t) == if t in r.byPredecessor then r.byPredecessor[t] else [])
                 && (forall t :: t in r.byPredecessor ==> r.byPredecessor[t] != [])
  {
    var known := FilterDependencies(tasks, deps);
    var order := Order(tasks, known);
    OrderIsDecisive(tasks, known, order);
    if |order| != |tasks| {
      return Cycle;
    }
    var bySuccessor := GroupBySuccessor(known);
    var byPredecessor := GroupByPredecessor(known);
    return Ordered(order, bySuccessor, byPredecessor);
  }

  // ----- the order is canonical -------------------------------------------------------------------------

  lemma LeastIsUnique(s: set<Entry>, x: Entry, y: Entry)
    requires IsLeast(x, s) && IsLeast(y, s)
    ensures x == y
  {
    LessTotal(x, y);
  }

  lemma SameEdgesSameReady(tasks: map<Id, Task>, deps: seq<Dependency>, deps': seq<Dependency>, done: set<Id>)
    requires forall a, b :: Edge(deps, a, b) <==> Edge(deps', a, b)
    ensures ReadyEntries(tasks, deps, done) == ReadyEntries(tasks, deps', done)
  {
    forall t | t in tasks ensures Ready(tasks, deps, done, t) <==> Ready(tasks, deps', done, t) {
      ReadyByEdges(tasks, deps, done, t);
      ReadyByEdges(tasks, deps', done, t);
    }
  }

  lemma ReadyByEdges(tasks: map<Id, Task>, deps: seq<Dependency>, done: set<Id>, t: Id)
    ensures Ready(tasks, deps, done, t) <==> t in tasks && t !in done && forall a :: Edge(deps, a, t) ==> a in done
  {
  }

  lemma {:induction false} SamePrefixes(tasks: map<Id, Task>, deps: seq<Dependency>, deps': seq<Dependency>,
                                        order: seq<Id>, order': seq<Id>, n: nat)
    requires forall a, b :: Edge(deps, a, b) <==> Edge(deps', a, b)
    requires Greedy(tasks, deps, order) && Greedy(tasks, deps', order') && n <= |order| && n <= |order'|
    ensures order[..n] == order'[..n]
  {
    if n > 0 {
      var i := n - 1;
      SamePrefixes(tasks, deps, deps', order, order', i);
      assert TakenInTurn(tasks, deps, order, i) && TakenInTurn(tasks, deps', order', i);
      SameEdgesSameReady(tasks, deps, deps', Done(order[..i]));
      LeastIsUnique(ReadyEntries(tasks, deps, Done(order[..i])), EntryOf(tasks, order[i]), EntryOf(tasks, order'[i]));
      assert order[..n] == order[..i] + [order[i]] && order'[..n] == order'[..i] + [order'[i]];
    }
  }

  /** The order is urgent first: whichever tasks are ready when one is taken, all their
      predecessors being done, have no smaller priority number; at the same priority none has
      a name that sorts before, and at the same name none an id that does. */
  lemma UrgentTasksGoFirst(tasks: map<Id, Task>, deps: seq<Dependency>, order: seq<Id>, i: nat, t: Id)
    requires Greedy(tasks, deps, order) && i < |order|
    requires t in tasks && t !in order[..i] && forall k :: 0 <= k < |deps| && deps[k].successor == t ==> deps[k].predecessor in order[..i]
    ensures order[i] in tasks
    ensures var x, y := tasks[order[i]], tasks[t];
            && x.priority <= y.priority
            && (x.priority == y.priority ==> !TextLess(y.name, x.name))
            && (x.priority == y.priority && x.name == y.name ==> !TextLess(t, order[i]))
  {
    assert TakenInTurn(tasks, deps, order, i);
    assert Ready(tasks, deps, Done(order[..i]), t);
    assert EntryOf(tasks, t) in ReadyEntries(tasks, deps, Done(order[..i]));
  }

  /** The dependencies kept are exactly those between tasks of the project. */
  lemma {:induction false} FilteredMembers(tasks: map<Id, Task>, deps: seq<Dependency>, dep: Dependency)
    ensures dep in Filtered(tasks, deps) <==> dep in deps && dep.predecessor in tasks && dep.successor in tasks
  {
    if deps != [] {
      FilteredMembers(tasks, deps[..|deps| - 1], dep);
      assert deps == deps[..|deps| - 1] + [deps[|deps| - 1]];
    }
  }

  /** The order depends on which dependencies there are, not on how they are listed: in
      another order or repeated, they give the same schedule. */
  lemma OrderIsCanonical(tasks: map<Id, Task>, deps: seq<Dependency>, deps': seq<Dependency>, order: seq<Id>, order': seq<Id>)
    requires forall a, b :: a in tasks && b in tasks ==> (Edge(deps, a, b) <==> Edge(deps', a, b))
    requires Greedy(tasks, Filtered(tasks, deps), order) && Greedy(tasks, Filtered(tasks, deps'), order')
    requires |order| == |order'|
    ensures order == order'
  {
    FilteredEdges(tasks, deps);
    FilteredEdges(tasks, deps');
    SamePrefixes(tasks, Filtered(tasks, deps), Filtered(tasks, deps'), order, order', |order|);
    assert order[..|order|] == order && order'[..|order|] == order';
  }
}
