/**
  The loop of OscMessage._parse_datagram over Python lists in the heap: an opened list is
  appended to its parent and to the stack at once, and filled later through the stack.

  Lists are numbered in the order of their creation, and `Snapshot` shows the heap as a
  value.  The lemmas are about such values; the method keeps the snapshot of its lists.
*/
module OscMessageHeap {
  import opened Wrappers
  import opened Bytes
  import opened PyValues
  import opened OscTypes
  import opened OscMessage

  // ----- stores: snapshots of the heap lists

  datatype Slot = Leaf(v: Value) | Link(id: nat)

  type Store = seq<seq<Slot>>

  /** Every list refers only to lists created after it. */
  predicate Forward(store: Store) {
    forall i, k :: 0 <= i < |store| && 0 <= k < |store[i]| && store[i][k].Link? ==> i < store[i][k].id < |store|
  }

  /** The first `n` items of list `i`, with every reference replaced by the list it leads to. */
  function Tree(store: Store, i: nat, n: nat): (vs: seq<Value>)
    requires Forward(store) && i < |store| && n <= |store[i]|
    ensures |vs| == n
    decreases |store| - i, n
  {
    if n == 0 then []
    else
      Tree(store, i, n - 1) + [match store[i][n - 1]
                               case Leaf(v) => v
                               case Link(j) => List(Tree(store, j, |store[j]|))]
  }

  predicate LinkAt(store: Store, i: nat, p: nat, id: nat) {
    i < |store| && p < |store[i]| && store[i][p] == Link(id)
  }

  ghost predicate Linked(store: Store, id: nat) {
    exists i, p :: LinkAt(store, i, p, id)
  }

  /** The lists form one tree with list 0 as its root: exactly one item refers to any other list. */
  ghost predicate SingleTree(store: Store) {
    && (forall i, p, j, q, id :: LinkAt(store, i, p, id) && LinkAt(store, j, q, id) ==> i == j && p == q)
    && (forall id :: 0 < id < |store| ==> Linked(store, id))
  }

  /**
    The lists form a tree, and `path` is its rightmost open path: each open list is the last
    item of the one before it, and nothing else refers to an open list.
  */
  ghost predicate OpenPath(store: Store, path: seq<nat>) {
    && Forward(store) && SingleTree(store)
    && path != []
    && (forall k :: 0 <= k < |path| ==> path[k] < |store|)
    && (forall k :: 0 <= k < |path| - 1 ==> Chained(store, path[k], path[k + 1]))
    && (forall i, p :: 0 <= i < |store| && 0 <= p < |store[i]| && store[i][p].Link? && store[i][p].id in path ==>
          i in path && p == |store[i]| - 1)
    && (forall k, l :: 0 <= k < l < |path| ==> path[k] < path[l])
  }

  ghost predicate Chained(store: Store, i: nat, j: nat) {
    i < |store| && store[i] != [] && store[i][|store[i]| - 1] == Link(j)
  }

  /** The number of items of the open list at level `k`, without the open list inside it. */
  function OwnLength(store: Store, path: seq<nat>, k: nat): nat
    requires k < |path| && path[k] < |store| && (k < |path| - 1 ==> store[path[k]] != [])
  {
    |store[path[k]]| - if k < |path| - 1 then 1 else 0
  }

  /** The contents of the open lists, each without the open list inside it. */
  ghost function Levels(store: Store, path: seq<nat>): (levels: seq<seq<Value>>)
    requires OpenPath(store, path)
    ensures |levels| == |path|
  {
    seq(|path|, k requires 0 <= k < |path| =>
      assert k < |path| - 1 ==> Chained(store, path[k], path[k + 1]);
      Tree(store, path[k], OwnLength(store, path, k)))
  }

  /** A tree that reaches no list of `open` does not depend on their contents, nor on later lists. */
  lemma {:induction false} TreeFrame(store: Store, store': Store, open: seq<nat>, i: nat, n: nat)
    requires Forward(store) && Forward(store') && |store| <= |store'|
    requires forall j :: 0 <= j < |store| && j !in open ==> store'[j] == store[j]
    requires forall j, p :: 0 <= j < |store| && j !in open && 0 <= p < |store[j]| && store[j][p].Link? ==>
                            store[j][p].id !in open
    requires i < |store| && n <= |store[i]| && n <= |store'[i]| && store'[i][..n] == store[i][..n]
    requires forall p :: 0 <= p < n && store[i][p].Link? ==> store[i][p].id !in open
    ensures Tree(store', i, n) == Tree(store, i, n)
    decreases |store| - i, n
  {
    if n > 0 {
      assert store[i][..n][n - 1] == store'[i][..n][n - 1];
      assert store[i][..n - 1] == store[i][..n][..n - 1] == store'[i][..n - 1];
      TreeFrame(store, store', open, i, n - 1);
      if store[i][n - 1].Link? {
        var j := store[i][n - 1].id;
        TreeFrame(store, store', open, j, |store[j]|);
      }
    }
  }

  /** The lists at the levels of an open path keep their contents when only open lists grow. */
  lemma LevelFrame(store: Store, store': Store, path: seq<nat>, k: nat)
    requires OpenPath(store, path) && Forward(store') && |store| <= |store'| && k < |path|
    requires forall j :: 0 <= j < |store| && j !in path ==> store'[j] == store[j]
    requires store[path[k]] <= store'[path[k]]
    ensures k < |path| - 1 ==> store[path[k]] != []
    ensures Tree(store', path[k], OwnLength(store, path, k)) == Levels(store, path)[k]
  {
    assert k < |path| - 1 ==> Chained(store, path[k], path[k + 1]);
    var i, n := path[k], OwnLength(store, path, k);
    forall p | 0 <= p < n && store[i][p].Link?
      ensures store[i][p].id !in path
    {
      TopLinksClosed(store, path, k, p);
    }
    assert store'[i][..n] == store[i][..n];
    TreeFrame(store, store', path, i, n);
  }

  /** The own items of an open list do not refer to open lists. */
  lemma TopLinksClosed(store: Store, path: seq<nat>, k: nat, p: nat)
    requires OpenPath(store, path) && k < |path| && p < |store[path[k]]|
    requires k < |path| - 1 ==> p < |store[path[k]]| - 1
    requires store[path[k]][p].Link?
    ensures store[path[k]][p].id !in path
  {
  }

  function Append(store: Store, i: nat, s: Slot): Store
    requires i < |store|
  {
    store[i := store[i] + [s]]
  }

  /** Appending a value leaves the references as they are. */
  lemma PushLeafTree(store: Store, i: nat, v: Value)
    requires i < |store| && SingleTree(store)
    ensures SingleTree(Append(store, i, Leaf(v)))
  {
    var store' := Append(store, i, Leaf(v));
    forall j: nat, p: nat, id: nat
      ensures LinkAt(store', j, p, id) <==> LinkAt(store, j, p, id)
    {
    }
    forall id | 0 < id < |store'|
      ensures Linked(store', id)
    {
      assert Linked(store, id);
      var j, p :| LinkAt(store, j, p, id);
      assert LinkAt(store', j, p, id);
    }
  }

  /** Opening a list adds one reference, to the one list that is new. */
  lemma OpenListTree(store: Store, i: nat)
    requires i < |store| && Forward(store) && SingleTree(store)
    ensures SingleTree(Append(store, i, Link(|store|)) + [[]])
  {
    var store': Store := Append(store, i, Link(|store|)) + [[]];
    var end := |store[i]|;
    forall j: nat, p: nat, id: nat
      ensures LinkAt(store', j, p, id) <==> LinkAt(store, j, p, id) || (j == i && p == end && id == |store|)
      ensures LinkAt(store, j, p, id) ==> id != |store|
    {
    }
    forall id | 0 < id < |store'|
      ensures Linked(store', id)
    {
      if id < |store| {
        assert Linked(store, id);
        var j, p :| LinkAt(store, j, p, id);
        assert LinkAt(store', j, p, id);
      } else {
        assert LinkAt(store', i, end, id);
      }
    }
  }

  lemma AppendBefore(store: Store, i: nat, s: Slot)
    requires i < |store|
    ensures Append(store + [[]], i, s) == Append(store, i, s) + [[]]
  {
  }

  lemma PushLeafPath(store: Store, path: seq<nat>, v: Value)
    requires OpenPath(store, path)
    ensures OpenPath(Append(store, path[|path| - 1], Leaf(v)), path)
  {
    var top := path[|path| - 1];
    var store' := Append(store, top, Leaf(v));
    PushLeafTree(store, top, v);
    hide SingleTree;
    assert forall k :: 0 <= k < |path| - 1 ==> path[k] < top;
    forall k | 0 <= k < |path| - 1
      ensures Chained(store', path[k], path[k + 1])
    {
      assert Chained(store, path[k], path[k + 1]);
    }
    forall i, p | 0 <= i < |store'| && 0 <= p < |store'[i]| && store'[i][p].Link?
      ensures i < store'[i][p].id < |store'|
      ensures store'[i][p].id in path ==> i in path && p == |store'[i]| - 1
    {
      assert store'[i][p] == store[i][p];
      if i == top {
        TopLinksClosed(store, path, |path| - 1, p);
      }
    }
  }

  /** Appending a value to the top list. */
  lemma PushLeaf(store: Store, path: seq<nat>, v: Value)
    requires OpenPath(store, path)
    ensures var store' := Append(store, path[|path| - 1], Leaf(v));
            OpenPath(store', path) && Levels(store', path) == Push(Levels(store, path), v)
  {
    hide SingleTree;
    var n := |path| - 1;
    var store' := Append(store, path[n], Leaf(v));
    PushLeafPath(store, path, v);
    assert forall k :: 0 <= k < n ==> path[k] < path[n];
    forall k | 0 <= k < |path|
      ensures Levels(store', path)[k] == Push(Levels(store, path), v)[k]
    {
      LevelFrame(store, store', path, k);
    }
  }

  /** Opening a list: a new empty list, appended to the top list and to the path. */
  lemma OpenList(store: Store, path: seq<nat>)
    requires OpenPath(store, path)
    ensures var store': Store := Append(store, path[|path| - 1], Link(|store|)) + [[]];
            var path' := path + [|store|];
            OpenPath(store', path') && Levels(store', path') == Levels(store, path) + [[]]
  {
    hide SingleTree, Tree;
    var n := |path| - 1;
    var top := path[n];
    var store': Store := Append(store, top, Link(|store|)) + [[]];
    var path' := path + [|store|];
    assert forall k :: 0 <= k < n ==> path[k] < path[n];
    forall k | 0 <= k < |path'| - 1
      ensures Chained(store', path'[k], path'[k + 1])
    {
      if k < n {
        assert Chained(store, path[k], path[k + 1]);
        assert store'[path[k]] == store[path[k]];
      } else {
        assert store'[top] == store[top] + [Link(|store|)];
      }
    }
    OpenListLinks(store, path);
    OpenListTree(store, top);
    assert OpenPath(store', path');
    forall k | 0 <= k < |path'|
      ensures Levels(store', path')[k] == (Levels(store, path) + [[]])[k]
    {
      if k < |path| {
        LevelFrame(store, store', path, k);
      }
    }
  }

  lemma OpenListLinks(store: Store, path: seq<nat>)
    requires OpenPath(store, path)
    ensures var store': Store := Append(store, path[|path| - 1], Link(|store|)) + [[]];
            var path' := path + [|store|];
            && Forward(store')
            && forall i, p :: 0 <= i < |store'| && 0 <= p < |store'[i]| &&
                              store'[i][p].Link? && store'[i][p].id in path' ==>
                              i in path' && p == |store'[i]| - 1
  {
    var n := |path| - 1;
    var top := path[n];
    var store': Store := Append(store, top, Link(|store|)) + [[]];
    var path' := path + [|store|];
    forall i, p | 0 <= i < |store'| && 0 <= p < |store'[i]| && store'[i][p].Link?
      ensures i < store'[i][p].id < |store'|
      ensures store'[i][p].id in path' ==> i in path' && p == |store'[i]| - 1
    {
      if i < |store| && p < |store[i]| {
        assert store'[i][p] == store[i][p];
        if i == top {
          TopLinksClosed(store, path, n, p);
        }
      }
    }
  }

  /** Closing the top list adds it as one value to the list below. */
  lemma CloseList(store: Store, path: seq<nat>)
    requires OpenPath(store, path) && |path| > 1
    ensures var n := |path| - 1;
            && OpenPath(store, path[..n])
            && Levels(store, path[..n]) == Push(Levels(store, path)[..n], List(Levels(store, path)[n]))
  {
    var n := |path| - 1;
    var path' := path[..n];
    assert Chained(store, path[n - 1], path[n]);
    forall k | 0 <= k < |path'| - 1
      ensures Chained(store, path'[k], path'[k + 1])
    {
      assert Chained(store, path[k], path[k + 1]);
    }
    forall i, p | 0 <= i < |store| && 0 <= p < |store[i]| && store[i][p].Link? && store[i][p].id in path'
      ensures i in path' && p == |store[i]| - 1
    {
      assert store[i][p].id in path;
      var l :| 0 <= l < |path'| && path'[l] == store[i][p].id;
      assert path[l] < path[n];
    }
    assert OpenPath(store, path');
    forall k | 0 <= k < |path'|
      ensures Levels(store, path')[k] == Push(Levels(store, path)[..n], List(Levels(store, path)[n]))[k]
    {
    }
  }

  // ----- the heap

  /** A Python list.  The number is its place in the order of creation. */
  class PyList {
    ghost const id: nat
    var items: seq<Cell>

    constructor (ghost id: nat)
      ensures this.id == id && items == []
    {
      this.id := id;
      items := [];
    }
  }

  datatype Cell = Scalar(v: Value) | Ref(list: PyList)

  ghost function SlotOf(c: Cell): Slot {
    match c
    case Scalar(v) => Leaf(v)
    case Ref(list) => Link(list.id)
  }

  ghost function Slots(cells: seq<Cell>): (slots: seq<Slot>)
    ensures |slots| == |cells|
    ensures forall k :: 0 <= k < |cells| ==> slots[k] == SlotOf(cells[k])
  {
    seq(|cells|, k requires 0 <= k < |cells| => SlotOf(cells[k]))
  }

  /** The lists of `heap` are numbered by their positions, and refer only to each other. */
  ghost predicate Numbered(heap: seq<PyList>)
    reads heap
  {
    && (forall i :: 0 <= i < |heap| ==> heap[i].id == i)
    && (forall i, c :: 0 <= i < |heap| && c in heap[i].items && c.Ref? ==> c.list in heap)
  }

  ghost function Snapshot(heap: seq<PyList>): (store: Store)
    reads heap
    ensures |store| == |heap|
    ensures forall i :: 0 <= i < |heap| ==> store[i] == Slots(heap[i].items)
  {
    seq(|heap|, i requires 0 <= i < |heap| reads heap => Slots(heap[i].items))
  }

  /** The nested value of a Python list. */
  ghost function ValueOf(heap: seq<PyList>, list: PyList): seq<Value>
    requires Forward(Snapshot(heap)) && list.id < |heap| && heap[list.id] == list
    reads heap
  {
    Tree(Snapshot(heap), list.id, |Snapshot(heap)[list.id]|)
  }

  /** The Python stack holds the open lists of the heap; `path` has their numbers. */
  ghost predicate Stacked(heap: seq<PyList>, stack: seq<PyList>, path: seq<nat>)
    reads heap
  {
    && Numbered(heap)
    && OpenPath(Snapshot(heap), path)
    && |stack| == |path| && path[0] == 0
    && forall k :: 0 <= k < |path| ==> stack[k] == heap[path[k]]
  }

  ghost function StackLevels(heap: seq<PyList>, stack: seq<PyList>, path: seq<nat>): (levels: seq<seq<Value>>)
    requires Stacked(heap, stack, path)
    reads heap
    ensures |levels| == |stack|
  {
    Levels(Snapshot(heap), path)
  }

  lemma SlotsSnoc(cells: seq<Cell>, c: Cell)
    ensures Slots(cells + [c]) == Slots(cells) + [SlotOf(c)]
  {
    hide SlotOf;
  }

  /** Appending to one list, as the snapshots show it. */
  method AppendCell(list: PyList, c: Cell, ghost heap: seq<PyList>)
    requires Numbered(heap) && list in heap && (c.Ref? ==> c.list in heap)
    modifies list
    ensures Numbered(heap) && list.id < |heap|
    ensures Snapshot(heap) == Append(old(Snapshot(heap)), list.id, SlotOf(c))
  {
    hide Slots, SlotOf;
    ghost var store, items := Snapshot(heap), list.items;
    SlotsSnoc(items, c);
    list.items := list.items + [c];
    forall i | 0 <= i < |heap|
      ensures Snapshot(heap)[i] == Append(store, list.id, SlotOf(c))[i]
    {
      assert heap[i] != list ==> heap[i].items == old(heap[i].items);
    }
  }

  /** `param_stack[-1].append(val)` */
  method AppendValue(stack: seq<PyList>, v: Value, ghost heap: seq<PyList>, ghost path: seq<nat>)
    requires Stacked(heap, stack, path)
    modifies stack[|stack| - 1]
    ensures Stacked(heap, stack, path)
    ensures StackLevels(heap, stack, path) == Push(old(StackLevels(heap, stack, path)), v)
  {
    var top := stack[|stack| - 1];
    PushLeaf(Snapshot(heap), path, v);
    hide OpenPath, Levels, Forward, Tree, Snapshot, Numbered;
    AppendCell(top, Scalar(v), heap);
  }

  /** A new list in the heap, which nothing refers to yet. */
  method NewList(ghost heap: seq<PyList>) returns (list: PyList, ghost heap': seq<PyList>)
    requires Numbered(heap)
    ensures fresh(list) && list.id == |heap| && heap' == heap + [list] && Numbered(heap')
    ensures Snapshot(heap') == Snapshot(heap) + [[]]
  {
    hide SlotOf;
    list := new PyList(|heap|);
    heap' := heap + [list];
    forall i | 0 <= i < |heap|
      ensures heap'[i] == heap[i] && heap[i].items == old(heap[i].items)
    {
    }
    assert Snapshot(heap') == Snapshot(heap) + [[]];
  }

  /** `array = []; param_stack[-1].append(array); param_stack.append(array)` */
  method OpenArray(stack: seq<PyList>, ghost heap: seq<PyList>, ghost path: seq<nat>)
    returns (stack': seq<PyList>, ghost heap': seq<PyList>, ghost path': seq<nat>)
    requires Stacked(heap, stack, path)
    modifies stack[|stack| - 1]
    ensures forall l :: l in heap' ==> l in heap || fresh(l)
    ensures Stacked(heap', stack', path') && stack'[0] == stack[0]
    ensures StackLevels(heap', stack', path') == old(StackLevels(heap, stack, path)) + [[]]
  {
    var top := stack[|stack| - 1];
    ghost var store := Snapshot(heap);
    OpenList(store, path);
    assert forall k :: 0 <= k < |path| ==> path[k] < |heap| && stack[k] == heap[path[k]];
    hide OpenPath, Levels, Forward, Tree, Snapshot, Numbered, SlotOf, Append;
    var list;
    list, heap' := NewList(heap);
    AppendCell(top, Ref(list), heap');
    SlotOfRef(list);
    AppendBefore(store, top.id, SlotOf(Ref(list)));
    StackGrows(heap, stack, path, list);
    stack', path' := stack + [list], path + [|heap|];
  }

  lemma SlotOfRef(list: PyList)
    ensures SlotOf(Ref(list)) == Link(list.id)
  {
  }

  lemma StackGrows(heap: seq<PyList>, stack: seq<PyList>, path: seq<nat>, list: PyList)
    requires |stack| == |path| && forall k :: 0 <= k < |path| ==> path[k] < |heap| && stack[k] == heap[path[k]]
    ensures forall k :: 0 <= k < |path + [|heap|]| ==>
              && (path + [|heap|])[k] < |heap + [list]|
              && (stack + [list])[k] == (heap + [list])[(path + [|heap|])[k]]
  {
  }

  /** The lists of `heap` form a tree with `list` as its root: no two entries are the same Python list. */
  ghost predicate Root(heap: seq<PyList>, list: PyList)
    reads heap
  {
    heap != [] && heap[0] == list && Numbered(heap) && Forward(Snapshot(heap)) && SingleTree(Snapshot(heap))
  }

  /** No two entries of the parsed parameters, at any depth, are the same Python list, and no list holds the root. */
  lemma NoAliases(heap: seq<PyList>, root: PyList, a: PyList, p: nat, b: PyList, q: nat)
    requires Root(heap, root) && a in heap && b in heap
    requires p < |a.items| && q < |b.items| && a.items[p].Ref? && a.items[p] == b.items[q]
    ensures a == b && p == q && a.items[p].list != root
  {
    var store, id := Snapshot(heap), a.items[p].list.id;
    assert a == heap[a.id] && b == heap[b.id];
    assert LinkAt(store, a.id, p, id) && LinkAt(store, b.id, q, id);
  }

  /** When only the outermost list is open, its value is the one level of the stack. */
  lemma RootValue(heap: seq<PyList>, stack: seq<PyList>, path: seq<nat>)
    requires Stacked(heap, stack, path) && |stack| == 1
    ensures Root(heap, stack[0])
    ensures StackLevels(heap, stack, path) == [ValueOf(heap, stack[0])]
  {
  }

  /** One iteration of the loop over the type tags. */
  method StepHeap(d: bytes, tag: byte, index: int, stack: seq<PyList>, ghost heap: seq<PyList>, ghost path: seq<nat>)
    returns (r: Result<(int, seq<PyList>), Fault>, ghost heap': seq<PyList>, ghost path': seq<nat>)
    requires Stacked(heap, stack, path)
    modifies stack[|stack| - 1]
    ensures forall l :: l in heap' ==> l in heap || fresh(l)
    ensures match r
            case Err(f) => Step(d, tag, index, old(StackLevels(heap, stack, path))) == Err(f)
            case Ok((next, stack')) =>
              && Stacked(heap', stack', path') && stack'[0] == stack[0]
              && Step(d, tag, index, old(StackLevels(heap, stack, path)))
                 == Ok((next, StackLevels(heap', stack', path')))
  {
    heap', path' := heap, path;
    if tag == OPEN {
      var stack';
      stack', heap', path' := OpenArray(stack, heap, path);
      return Ok((index, stack')), heap', path';
    } else if tag == CLOSE {
      if |stack| < 2 {
        return Err(UnexpectedBracket), heap, path;
      }
      CloseList(Snapshot(heap), path);
      return Ok((index, stack[..|stack| - 1])), heap, path[..|path| - 1];
    } else {
      var arg := ReadArg(d, tag, index);
      match arg {
        case Unreadable => return Err(Incorrect), heap, path;
        case Unhandled => return Ok((index, stack)), heap, path;
        case Param(v, next) =>
          AppendValue(stack, v, heap, path);
          return Ok((next, stack)), heap, path;
      }
    }
  }

  /** The loop over the type tags. */
  method ParseParams(d: bytes, tags: bytes, start: int)
    returns (r: Result<PyList, Fault>, ghost heap: seq<PyList>)
    ensures forall l :: l in heap ==> fresh(l)
    ensures match r
            case Ok(params) => Root(heap, params) && Params(d, tags, start) == Ok(ValueOf(heap, params))
            case Err(f) => Params(d, tags, start) == Err(f)
  {
    var params := new PyList(0);
    var index, paramStack := start, [params];
    ghost var path: seq<nat>;
    heap, path := [params], [0];
    ghost var levels: seq<seq<Value>> := [[]];
    FirstList(params);
    RunIsGrammar(d, tags, start);
    hide Stacked, StackLevels, Run, Step, Params;
    var k := 0;
    while k < |tags|
      invariant 0 <= k <= |tags|
      invariant forall l :: l in heap ==> fresh(l)
      invariant Stacked(heap, paramStack, path) && paramStack[0] == params
      invariant levels == StackLevels(heap, paramStack, path)
      invariant Run(d, tags[k..], index, levels) == Params(d, tags, start)
    {
      RunStep(d, tags, k, index, levels);
      TopInHeap(heap, paramStack, path);
      var step;
      step, heap, path := StepHeap(d, tags[k], index, paramStack, heap, path);
      if step.Err? {
        return Err(step.error), heap;
      }
      index, paramStack := step.value.0, step.value.1;
      levels := StackLevels(heap, paramStack, path);
      k := k + 1;
    }
    RunEnds(d, tags, index, levels);
    if |paramStack| != 1 {
      return Err(MissingBracket), heap;
    }
    RootValue(heap, paramStack, path);
    return Ok(params), heap;
  }

  lemma TopInHeap(heap: seq<PyList>, stack: seq<PyList>, path: seq<nat>)
    requires Stacked(heap, stack, path)
    ensures stack != [] && stack[|stack| - 1] in heap
  {
  }

  lemma RunEnds(d: bytes, tags: bytes, i: int, levels: seq<seq<Value>>)
    requires levels != []
    ensures Run(d, tags[|tags|..], i, levels) == if |levels| != 1 then Err(MissingBracket) else Ok(levels[0])
  {
  }

  lemma FirstList(list: PyList)
    requires list.id == 0 && list.items == []
    ensures Stacked([list], [list], [0]) && StackLevels([list], [list], [0]) == [[]]
  {
    assert Snapshot([list]) == [[]];
  }

  lemma RunStep(d: bytes, tags: bytes, k: nat, i: int, levels: seq<seq<Value>>)
    requires k < |tags| && levels != []
    ensures Run(d, tags[k..], i, levels) ==
            match Step(d, tags[k], i, levels)
            case Err(f) => Err(f)
            case Ok((next, levels')) => Run(d, tags[k + 1..], next, levels')
  {
    assert tags[k..][1..] == tags[k + 1..];
  }

  /**
    `_parse_datagram`: the address and the parameter list.  The ghost result holds the
    Python lists that were created, for the nested value of the parameter list.
  */
  method ParseDatagram(d: bytes) returns (r: Result<(bytes, PyList), Fault>, ghost heap: seq<PyList>)
    ensures forall l :: l in heap ==> fresh(l)
    ensures match r
            case Ok((address, params)) =>
              Root(heap, params) && ParseMessage(d) == Ok(Message(d, address, ValueOf(heap, params)))
            case Err(f) => ParseMessage(d) == Err(f)
  {
    heap := [];
    var address := ScanString(d, 0);
    if address.Malformed? {
      return Err(Incorrect), heap;
    }
    if From(d, address.next) == [] {
      var params := new PyList(0);
      heap := [params];
      assert Snapshot(heap) == [[]];
      return Ok((address.value, params)), heap;
    }
    var typeTag := ScanString(d, address.next);
    if typeTag.Malformed? {
      return Err(Incorrect), heap;
    }
    if typeTag.value == [] || typeTag.value[0] != COMMA {
      return Err(NoComma), heap;
    }
    var params;
    params, heap := ParseParams(d, typeTag.value[1..], typeTag.next);
    if params.Err? {
      return Err(params.error), heap;
    }
    return Ok((address.value, params.value)), heap;
  }
}
