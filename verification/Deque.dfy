/**
 The double ended queue of deque.c: a doubly linked chain with a cursor, and an index for binary
 search. The abstract value is the sequence of nodes from head to tail and the data they carry.
 */
module Deque {
  import opened QuickSort
  import opened Wrappers

  class Node<T> {
    var data: T
    var prev: Node?<T>
    var next: Node?<T>

    constructor (data: T)
      ensures this.data == data && prev == null && next == null
    {
      this.data, prev, next := data, null, null;
    }
  }

  /** No element is above x. */
  ghost predicate IsTop<T>(s: seq<T>, comp: (T, T) -> int, x: T) {
    forall i :: 0 <= i < |s| ==> comp(s[i], x) <= 0
  }

  /** Sorting the index looks at nothing farther behind it than the next slot, where `beyond` is found. */
  ghost predicate Sortable<T>(s: seq<T>, comp: (T, T) -> int, beyond: T) {
    InBounds(s + [beyond], comp, 0, |s| - 1)
  }

  /** It is enough that a largest element comes last or occurs twice, or that no element is above the next slot. */
  lemma TopIsSortable<T(!new)>(s: seq<T>, comp: (T, T) -> int, beyond: T)
    requires TotalPreorder(comp)
    requires |s| < 2 || IsTop(s, comp, beyond) || Topped(s, comp, 0, |s| - 1)
    ensures Sortable(s, comp, beyond)
  {
    hide TotalPreorder, InBounds;
    var all := s + [beyond];
    if |s| > 1 {
      BoundedBySlot(all, comp, |s|, beyond);
    }
    BoundedIsInBounds(all, comp, 0, |s| - 1);
  }

  class Queue<T(!new)> {
    var head: Node?<T>
    var tail: Node?<T>
    var cursor: Node?<T>
    var size: nat
    var sorted: bool
    /** Q_index and posn_index, and the nodes they were built from. */
    var index: array?<T>
    var posnIndex: array?<Node?<T>>
    ghost var nodes: seq<Node<T>>
    /** The abstract value: the data from head to tail, and where the cursor is. */
    ghost var contents: seq<T>
    ghost var pos: int

    ghost predicate Linked()
      reads this`nodes, nodes
    {
      && (forall i, j :: 0 <= i < j < |nodes| ==> nodes[i] != nodes[j])
      && (forall i {:trigger nodes[i].next} :: 0 <= i < |nodes| ==>
            nodes[i].next == if i + 1 < |nodes| then nodes[i + 1] else null)
      && (forall i {:trigger nodes[i].prev} :: 0 <= i < |nodes| ==>
            nodes[i].prev == if i > 0 then nodes[i - 1] else null)
    }

    ghost predicate Valid()
      reads this`nodes, this`contents, this`size, this`head, this`tail, this`cursor, this`pos, nodes
    {
      && Linked()
      && size == |nodes| == |contents|
      && (forall i {:trigger nodes[i].data} {:trigger contents[i]} :: 0 <= i < |nodes| ==> nodes[i].data == contents[i])
      && head == (if nodes == [] then null else nodes[0])
      && tail == (if nodes == [] then null else nodes[|nodes| - 1])
      && (nodes == [] ==> cursor == null)
      && (nodes != [] ==> 0 <= pos < |nodes| && cursor == nodes[pos])
    }

    constructor Init()
      ensures Valid() && nodes == [] && contents == [] && !sorted
    {
      head, tail, cursor := null, null, null;
      size, sorted := 0, false;
      index, posnIndex := null, null;
      nodes, contents, pos := [], [], 0;
    }

    // ----- Cursor moves -----

    method Start() returns (atHead: bool)
      requires Valid()
      ensures atHead <==> nodes == [] || pos == 0
    {
      atHead := cursor == head;
    }

    method End() returns (atTail: bool)
      requires Valid()
      ensures atTail <==> nodes == [] || pos == |nodes| - 1
    {
      atTail := cursor == tail;
    }

    method First() returns (d: Option<T>)
      requires Valid()
      modifies this`cursor, this`pos
      ensures Valid()
      ensures if nodes == [] then d == None else pos == 0 && cursor == nodes[0] && d == Some(contents[0])
    {
      if size == 0 {
        return None;
      }
      cursor, pos := head, 0;
      d := Some(cursor.data);
    }

    method Last() returns (d: Option<T>)
      requires Valid()
      modifies this`cursor, this`pos
      ensures Valid()
      ensures if nodes == [] then d == None else pos == |nodes| - 1 && d == Some(contents[|nodes| - 1])
    {
      if size == 0 {
        return None;
      }
      cursor, pos := tail, |nodes| - 1;
      d := Some(cursor.data);
    }

    /** Q_Next follows a null cursor, so the queue must not be empty. */
    method Next() returns (d: Option<T>)
      requires Valid() && nodes != []
      modifies this`cursor, this`pos
      ensures Valid()
      ensures 0 <= pos < |nodes| && cursor == nodes[pos]
      ensures if old(pos) + 1 < |nodes| then pos == old(pos) + 1 && d == Some(contents[pos])
              else pos == old(pos) && d == None
    {
      if cursor.next == null {
        return None;
      }
      cursor, pos := cursor.next, pos + 1;
      d := Some(cursor.data);
    }

    method Previous() returns (d: Option<T>)
      requires Valid() && nodes != []
      modifies this`cursor, this`pos
      ensures Valid()
      ensures if old(pos) > 0 then pos == old(pos) - 1 && d == Some(contents[pos]) else pos == old(pos) && d == None
    {
      if cursor.prev == null {
        return None;
      }
      cursor, pos := cursor.prev, pos - 1;
      d := Some(cursor.data);
    }

    method Get() returns (d: Option<T>)
      requires Valid()
      ensures d == if nodes == [] then None else Some(contents[pos])
    {
      if cursor == null {
        return None;
      }
      d := Some(cursor.data);
    }

    // ----- Pushing and popping -----

    /** `memory` says whether malloc finds memory. */
    method PushHead(d: T, memory: bool) returns (ok: bool)
      requires Valid()
      modifies this, nodes
      ensures Valid() && ok == memory
      ensures ok ==> contents == [d] + old(contents) && nodes[1..] == old(nodes) && pos == 0 && !sorted
      ensures ok ==> fresh(nodes[0])
      ensures !ok ==> contents == old(contents) && nodes == old(nodes) && pos == old(pos) && sorted == old(sorted)
    {
      if !memory {
        if head != null {
          head.prev := null;  // what a failed malloc stores there
        }
        return false;
      }
      var n := new Node(d);
      LinkHead(n);
      ok := true;
    }

    method LinkHead(n: Node<T>)
      requires Valid() && n !in nodes && n.prev == null && n.next == null
      modifies this, nodes, n
      ensures Valid() && nodes == [n] + old(nodes) && contents == [old(n.data)] + old(contents)
      ensures pos == 0 && !sorted
    {
      if head != null {
        head.prev := n;
        n.next := head;
      } else {
        tail := n;
      }
      head := n;
      nodes, contents := [n] + nodes, [n.data] + contents;
      size := size + 1;
      cursor, pos := head, 0;
      sorted := false;
    }

    method PushTail(d: T, memory: bool) returns (ok: bool)
      requires Valid()
      modifies this, nodes
      ensures Valid() && ok == memory
      ensures ok ==> contents == old(contents) + [d] && nodes[..|nodes| - 1] == old(nodes)
      ensures ok ==> pos == |nodes| - 1 && !sorted && fresh(nodes[|nodes| - 1])
      ensures !ok ==> contents == old(contents) && nodes == old(nodes) && pos == old(pos) && sorted == old(sorted)
    {
      if !memory {
        if tail != null {
          tail.next := null;
        }
        return false;
      }
      var n := new Node(d);
      LinkTail(n);
      ok := true;
    }

    method LinkTail(n: Node<T>)
      requires Valid() && n !in nodes && n.prev == null && n.next == null
      modifies this, nodes, n
      ensures Valid() && nodes == old(nodes) + [n] && contents == old(contents) + [old(n.data)]
      ensures pos == |nodes| - 1 && !sorted
    {
      if tail != null {
        tail.next := n;
        n.prev := tail;
      } else {
        head := n;
      }
      tail := n;
      nodes, contents := nodes + [n], contents + [n.data];
      size := size + 1;
      cursor, pos := tail, |nodes| - 1;
      sorted := false;
    }

    method PopHead() returns (d: Option<T>)
      requires Valid()
      modifies this, nodes
      ensures Valid()
      ensures old(nodes) == [] ==> d == None && nodes == [] && sorted == old(sorted)
      ensures old(nodes) != [] ==>
        && d == Some(old(contents)[0]) && contents == old(contents)[1..] && nodes == old(nodes)[1..]
        && !sorted && (nodes != [] ==> pos == 0)
    {
      if size == 0 {
        return None;
      }
      d := Some(head.data);
      var n := head.next;
      size := size - 1;
      nodes, contents := nodes[1..], contents[1..];
      if size == 0 {
        head, tail, cursor := null, null, null;
      } else {
        head := n;
        head.prev := null;
        cursor, pos := head, 0;
      }
      sorted := false;
    }

    method PopTail() returns (d: Option<T>)
      requires Valid()
      modifies this, nodes
      ensures Valid()
      ensures old(nodes) == [] ==> d == None && nodes == [] && sorted == old(sorted)
      ensures old(nodes) != [] ==>
        && d == Some(old(contents)[|old(nodes)| - 1])
        && contents == old(contents)[..|old(nodes)| - 1] && nodes == old(nodes)[..|old(nodes)| - 1]
        && !sorted && (nodes != [] ==> pos == |nodes| - 1)
    {
      if size == 0 {
        return None;
      }
      d := Some(tail.data);
      var p := tail.prev;
      size := size - 1;
      nodes, contents := nodes[..|nodes| - 1], contents[..|contents| - 1];
      if size == 0 {
        head, tail, cursor := null, null, null;
      } else {
        tail := p;
        tail.next := null;
        cursor, pos := tail, |nodes| - 1;
      }
      sorted := false;
    }

    /** The node under the cursor has a neighbour on both sides. */
    ghost predicate Interior()
      reads this
    {
      0 < pos < |nodes| - 1
    }

    /**
     Q_DelCur. At either end it pops. In between, the source counts the node out and moves the cursor
     to its predecessor, but leaves the neighbours linked to the node it freed: the chain still has
     all its nodes and the queue is no longer consistent.
     */
    method DelCur() returns (d: Option<T>)
      requires Valid()
      modifies this, nodes
      ensures Valid() <==> !old(Interior())
      ensures old(nodes) == [] ==> d == None && nodes == []
      ensures old(nodes) != [] ==> d == Some(old(contents[pos])) && !sorted
      ensures old(nodes) != [] && !old(Interior()) ==>
        && contents == old(contents[..pos] + contents[pos + 1..])
        && nodes == old(nodes[..pos] + nodes[pos + 1..])
      ensures old(Interior()) ==>
        Linked() && nodes == old(nodes) && contents == old(contents) && size == |nodes| - 1
        && pos == old(pos) - 1 && cursor == nodes[pos]
    {
      if cursor == null {
        return None;
      }
      if cursor == head {
        d := PopHead();
        return;
      }
      if cursor == tail {
        d := PopTail();
        return;
      }
      var n := cursor.next;
      var p := cursor.prev;
      d := Some(cursor.data);
      cursor := if p != null then p else n;
      pos := pos - 1;
      size := size - 1;
      sorted := false;
    }

    /** What Q_DelCur is documented to do: the same with the two neighbours linked to each other. */
    method DelCurRelinking() returns (d: Option<T>)
      requires Valid()
      modifies this, nodes
      ensures Valid()
      ensures old(nodes) == [] ==> d == None && nodes == []
      ensures old(nodes) != [] ==>
        && d == Some(old(contents[pos])) && !sorted
        && contents == old(contents[..pos] + contents[pos + 1..])
        && nodes == old(nodes[..pos] + nodes[pos + 1..])
    {
      if cursor == null {
        return None;
      }
      if cursor == head {
        d := PopHead();
      } else if cursor == tail {
        d := PopTail();
      } else {
        d := Unlink();
      }
    }

    method Unlink() returns (d: Option<T>)
      requires Valid() && Interior()
      modifies this, nodes
      ensures Valid() && !sorted
      ensures d == Some(old(contents[pos])) && nodes == old(nodes[..pos] + nodes[pos + 1..])
      ensures contents == old(contents[..pos] + contents[pos + 1..])
    {
      d := Some(cursor.data);
      var n := cursor.next;
      var p := cursor.prev;
      p.next := n;
      n.prev := p;
      nodes, contents := nodes[..pos] + nodes[pos + 1..], contents[..pos] + contents[pos + 1..];
      cursor, pos := p, pos - 1;
      size := size - 1;
      sorted := false;
    }

    // ----- The index -----

    /** The index mirrors the chain, in the order of comp. */
    ghost predicate Indexed(comp: (T, T) -> int)
      reads this`nodes, this`contents, this`index, this`posnIndex, index, posnIndex
    {
      && index != null && posnIndex != null
      && index.Length == |nodes| + 1 && posnIndex.Length == |nodes|
      && (forall i :: 0 <= i < |nodes| ==> posnIndex[i] == nodes[i])
      && index[..|nodes|] == contents
      && Sorted(contents, comp)
    }

    /**
     Q_Put replaces the datum under the cursor and touches neither the index nor the flag that says
     the index is good. The index still mirrors the chain exactly if the datum did not change.
     */
    method Put(d: T) returns (ok: bool)
      requires Valid()
      modifies nodes, this`contents
      ensures Valid() && ok == (nodes != []) && sorted == old(sorted)
      ensures ok ==> contents == old(contents[pos := d])
      ensures forall comp :: old(Indexed(comp)) && ok ==> (Indexed(comp) <==> d == old(contents[pos]))
    {
      if cursor == null {
        return false;
      }
      cursor.data := d;
      contents := contents[pos := d];
      ok := true;
    }

    /** What the other updates do: the flag is cleared, so that a set flag keeps meaning a good index. */
    method PutUnsorting(d: T) returns (ok: bool)
      requires Valid()
      modifies nodes, this`contents, this`sorted
      ensures Valid() && ok == (nodes != []) && (ok ==> !sorted)
      ensures ok ==> contents == old(contents[pos := d])
      ensures forall comp :: old(sorted ==> Indexed(comp)) ==> (sorted ==> Indexed(comp))
    {
      ok := Put(d);
      if ok {
        sorted := false;
      }
    }

    /**
     Q_Find, a linear search. On a queue of one element that does not match, Q_Next returns a null
     pointer and the source hands it to Comp; `nullMatches` is what Comp makes of that.
     */
    method Find(key: T, comp: (T, T) -> int, nullMatches: bool) returns (found: bool)
      requires Valid() && nodes != []
      modifies this`cursor, this`pos
      ensures Valid()
      ensures found <==>
        (exists i :: 0 <= i < |nodes| && comp(contents[i], key) == 0) || (|nodes| == 1 && nullMatches)
      ensures found && (|nodes| == 1 ==> !nullMatches) ==>
        comp(contents[pos], key) == 0 && forall i :: 0 <= i < pos ==> comp(contents[i], key) != 0
      ensures !found ==> pos == |nodes| - 1
    {
      var d := First();
      if comp(d.value, key) == 0 {
        return true;
      }
      d := Next();
      while cursor != tail
        invariant Valid() && 0 <= pos < |nodes|
        invariant forall i :: 0 <= i < pos ==> comp(contents[i], key) != 0
        invariant comp(contents[0], key) != 0
        invariant |nodes| > 1 ==> d == Some(contents[pos])
        invariant |nodes| == 1 ==> d == None && pos == 0
        decreases |nodes| - pos
      {
        if comp(d.value, key) == 0 {
          return true;
        }
        d := Next();
      }
      match d {
        case None => found := nullMatches;
        case Some(v) => found := comp(v, key) == 0;
      }
    }

    /**
     Q_Sort. The source allocates one slot per element and the quicksort may look one slot further;
     `beyond` is what it would find there. Farther than that slot it must not look.
     */
    method Sort(comp: (T, T) -> int, beyond: T, indexMemory: bool, posnMemory: bool) returns (ok: bool)
      requires Valid() && TotalPreorder(comp)
      requires Sortable(contents, comp, beyond)
      modifies this, nodes
      ensures Valid() && nodes == old(nodes) && ok == (indexMemory && posnMemory) && sorted == ok
      ensures ok ==>
        && Indexed(comp) && multiset(contents) == multiset(old(contents)) && (nodes != [] ==> pos == 0)
      ensures !ok ==> contents == old(contents) && pos == old(pos)
    {
      hide Valid, Indexed, TotalPreorder, Sortable;
      if sorted {
        index, posnIndex := null, null;
        sorted := false;
      }
      if !indexMemory || !posnMemory {
        return false;
      }
      Reindex(comp, beyond);
      sorted := true;
      ok := true;
    }

    /** The part of Q_Sort behind the two allocations. */
    method Reindex(comp: (T, T) -> int, beyond: T)
      requires Valid() && TotalPreorder(comp) && Sortable(contents, comp, beyond)
      modifies this`index, this`posnIndex, this`cursor, this`pos, this`contents, nodes
      ensures Valid() && Indexed(comp) && multiset(contents) == multiset(old(contents)) && (nodes != [] ==> pos == 0)
    {
      hide Linked, TotalPreorder, Sorted, Sortable;
      Walk(beyond);
      SortIndex(comp);
      WriteBack();
      var d := First();  // the walk ended at the tail, so there is no element to find again
    }

    /** The call of QuickSort. */
    method SortIndex(comp: (T, T) -> int)
      requires Valid() && TotalPreorder(comp)
      requires index != null && index.Length == |nodes| + 1 && index[..|nodes|] == contents
      requires Sortable(contents, comp, index[|nodes|])
      modifies index
      ensures Valid() && contents == old(contents)
      ensures multiset(index[..|nodes|]) == multiset(contents) && Sorted(index[..|nodes|], comp)
    {
      hide TotalPreorder, Sorted, InBounds, Shuffled;
      ghost var before := index[..];
      assert before == contents + [index[size]];
      ghost var looked := QuickSort.Sort(index, 0, size - 1, comp);
      FullRange(before, index[..], size);
    }

    lemma Sizes()
      requires Valid()
      ensures size == |nodes| == |contents|
    {
    }

    /** Fills both arrays from the chain. */
    method Walk(beyond: T)
      requires Valid()
      modifies this`index, this`posnIndex, this`cursor, this`pos
      ensures Valid()
      ensures index != null && fresh(index) && index.Length == |nodes| + 1
      ensures index[..|nodes|] == contents && index[|nodes|] == beyond
      ensures posnIndex != null && fresh(posnIndex) && posnIndex.Length == |nodes|
      ensures forall i :: 0 <= i < |nodes| ==> posnIndex[i] == nodes[i]
    {
      hide Linked, Valid;
      Sizes();
      var list := new T[size + 1](_ => beyond);
      var posn := new Node?<T>[size];
      var d := First();
      var i := 0;
      while i < size
        invariant Valid() && 0 <= i <= size == |nodes| == |contents| && list[size] == beyond
        invariant i < size ==> pos == i && cursor == nodes[i] && d == Some(contents[i])
        invariant forall k :: 0 <= k < i ==> list[k] == contents[k] && posn[k] == nodes[k]
      {
        list[i] := d.value;
        posn[i] := cursor;
        d := Next();
        i := i + 1;
      }
      index, posnIndex := list, posn;
    }

    /** Gives the nodes, in chain order, the data in index order. */
    method WriteBack()
      requires Valid() && index != null && index.Length == |nodes| + 1
      modifies nodes, this`contents
      ensures Valid() && contents == index[..|nodes|]
    {
      var dn := head;
      var i := 0;
      while dn != null
        invariant 0 <= i <= |nodes| && dn == if i < |nodes| then nodes[i] else null
        invariant Valid()
        invariant forall k :: 0 <= k < i ==> contents[k] == index[k]
        decreases |nodes| - i
      {
        dn.data := index[i];
        contents := contents[i := index[i]];
        i := i + 1;
        dn := dn.next;
      }
    }

    /** Q_BSearch. */
    method BSearch(key: T, comp: (T, T) -> int) returns (at: int)
      requires Valid() && TotalPreorder(comp) && Indexed(comp)
      ensures -1 <= at < |nodes|
      ensures at >= 0 ==> comp(key, contents[at]) == 0
      ensures at == -1 ==> forall i :: 0 <= i < |nodes| ==> comp(key, contents[i]) != 0
    {
      hide Linked, TotalPreorder, Sorted, Sortable;
      var low, hi := 0, size - 1;
      while low <= hi
        invariant 0 <= low <= hi + 1 <= size
        invariant forall i :: 0 <= i < low ==> comp(key, contents[i]) != 0
        invariant forall i :: hi < i < size ==> comp(key, contents[i]) != 0
        decreases hi - low
      {
        var mid := (low + hi) / 2;
        assert index[..size][mid] == index[mid];
        var val := comp(key, index[mid]);
        if val < 0 {
          Above(contents, comp, key, mid);
          hi := mid - 1;
        } else if val > 0 {
          Below(contents, comp, key, mid);
          low := mid + 1;
        } else {
          return mid;
        }
      }
      at := -1;
    }

    /** Q_Seek finds an element exactly when one matches, and leaves the cursor on its node. */
    method Seek(key: T, comp: (T, T) -> int, beyond: T, indexMemory: bool, posnMemory: bool) returns (d: Option<T>)
      requires Valid() && TotalPreorder(comp)
      requires Sortable(contents, comp, beyond)
      requires sorted ==> Indexed(comp)
      modifies this, nodes
      ensures Valid() && nodes == old(nodes) && multiset(contents) == multiset(old(contents))
      ensures sorted == (old(sorted) || (indexMemory && posnMemory)) && (sorted ==> Indexed(comp))
      ensures sorted ==> (d.Some? <==> exists i :: 0 <= i < |nodes| && comp(key, contents[i]) == 0)
      ensures !sorted ==> d == None
      ensures d.Some? ==> d == Some(contents[pos]) && comp(key, d.value) == 0
    {
      hide Linked, TotalPreorder, Sorted, Sortable;
      if !sorted {
        var ok := Sort(comp, beyond, indexMemory, posnMemory);
        if !ok {
          return None;
        }
      }
      var idx := BSearch(key, comp);
      if idx < 0 {
        return None;
      }
      cursor, pos := posnIndex[idx], idx;
      d := Some(index[idx]);
      assert index[..|nodes|][idx] == index[idx];
    }

    /** Q_Insert ignores a failed push; the sort decides what it returns. */
    method Insert(d: T, comp: (T, T) -> int, beyond: T, memory: bool, indexMemory: bool, posnMemory: bool)
      returns (ok: bool)
      requires Valid() && TotalPreorder(comp)
      requires Sortable(if memory then [d] + contents else contents, comp, beyond)
      modifies this, nodes
      ensures Valid() && ok == (indexMemory && posnMemory) && sorted == ok
      ensures multiset(contents) == multiset(old(contents)) + if memory then multiset{d} else multiset{}
      ensures ok ==> Indexed(comp)
    {
      hide Linked, TotalPreorder, Sorted, Sortable;
      ghost var before := contents;
      var pushed := PushHead(d, memory);
      ok := Sort(comp, beyond, indexMemory, posnMemory);
      assert multiset([d] + before) == multiset{d} + multiset(before);
    }
  }

  // ----- Two updates that go wrong -----

  /** Deleting in the middle of three elements leaves the queue inconsistent. */
  method DeleteInTheMiddle() returns (q: Queue<int>)
    ensures fresh(q) && !q.Valid()
  {
    q := new Queue<int>.Init();
    var _ := q.PushTail(1, true);
    var _ := q.PushTail(2, true);
    var _ := q.PushTail(3, true);
    var _ := q.First();
    var _ := q.Next();
    var _ := q.DelCur();
  }

  /** Replacing a datum of a sorted queue leaves the flag set and the index wrong. */
  method PutInSorted() returns (q: Queue<int>)
    ensures fresh(q) && q.Valid() && q.sorted && !q.Indexed(Difference)
  {
    q := new Queue<int>.Init();
    var _ := q.PushTail(1, true);
    var _ := q.Sort(Difference, 1, true, true);
    assert q.contents == [1] by { OneElement(q.contents, 1); }
    var _ := q.Put(2);
  }

  lemma OneElement(s: seq<int>, x: int)
    requires multiset(s) == multiset([x])
    ensures s == [x]
  {
    assert |s| == |multiset(s)| == 1;
    assert s[0] in multiset(s);
  }

  lemma FullRange<T>(a: seq<T>, b: seq<T>, n: nat)
    requires |a| == |b| == n + 1 && Shuffled(a, b, 0, n)
    ensures multiset(b[..n]) == multiset(a[..n]) && b[0..n] == b[..n]
  {
    assert a[0..n] == a[..n] && b[0..n] == b[..n];
  }

  lemma BoundedBySlot<T(!new)>(s: seq<T>, comp: (T, T) -> int, n: nat, beyond: T)
    requires |s| == n + 1 && n > 1 && s[n] == beyond
    requires IsTop(s[..n], comp, beyond) || Topped(s[..n], comp, 0, n - 1)
    ensures Bounded(s, comp, 0, n - 1)
  {
    var t := s[..n];
    assert forall k :: 0 <= k < n ==> t[k] == s[k];
    if Tied(t, comp, 0, n - 1) {
      var p, q :| p < q && TopAt(t, comp, 0, n - 1, p) && TopAt(t, comp, 0, n - 1, q);
      assert TopAt(s, comp, 0, n - 1, p) && TopAt(s, comp, 0, n - 1, q);
    }
  }

  /** A key below an element of a sorted sequence is below everything after it. */
  lemma Above<T(!new)>(s: seq<T>, comp: (T, T) -> int, key: T, mid: nat)
    requires TotalPreorder(comp) && Sorted(s, comp) && mid < |s| && comp(key, s[mid]) < 0
    ensures forall i :: mid <= i < |s| ==> comp(key, s[i]) != 0
  {
    hide TotalPreorder;
    forall i | mid < i < |s| ensures comp(key, s[i]) != 0 {
      if comp(key, s[i]) == 0 {
        Signs(comp, s[i], key);
        Signs(comp, key, s[i]);
        Transitive(comp, s[mid], s[i], key);
        StrictSigns(comp, key, s[mid]);
      }
    }
  }

  lemma Below<T(!new)>(s: seq<T>, comp: (T, T) -> int, key: T, mid: nat)
    requires TotalPreorder(comp) && Sorted(s, comp) && mid < |s| && comp(key, s[mid]) > 0
    ensures forall i :: 0 <= i <= mid ==> comp(key, s[i]) != 0
  {
    hide TotalPreorder;
    forall i | 0 <= i < mid ensures comp(key, s[i]) != 0 {
      if comp(key, s[i]) == 0 {
        Transitive(comp, key, s[i], s[mid]);
      }
    }
  }

  lemma StrictSigns<T(!new)>(comp: (T, T) -> int, x: T, y: T)
    requires TotalPreorder(comp)
    ensures comp(x, y) < 0 <==> comp(y, x) > 0
  {
  }
}
