/**
 * `SingleList<T>`: a singly linked list with a head pointer and a size counter. Each operation
 * is specified by what it does to the sequence of stored values, `Contents`, and the pure
 * functions below state the source's rules for `insert` and `removeAt` on sequences.
 */
module SingleLinkedList {
  import opened Wrappers

  /** The source's `insert(value, index)` on the sequence of values; `None` where it throws `out_of_range`. */
  function InsertResult<T>(s: seq<T>, x: T, index: int): (r: Option<seq<T>>)
    ensures r.Some? <==> index == 0 || (index < 0 && s != []) || 1 <= index <= |s|
    ensures r.Some? ==> var p := if index <= 0 then (if index == 0 then 0 else 1) else index;
                        |r.value| == |s| + 1 && r.value[p] == x && r.value[..p] == s[..p] && r.value[p + 1..] == s[p..]
  {
    if index == 0 then Some([x] + s)
    else if index < 0 then (if s == [] then None else Some(s[..1] + [x] + s[1..]))
    else if index <= |s| then Some(s[..index] + [x] + s[index..])
    else None
  }

  /** The source's `removeAt(index)` on the sequence of values; `None` where it throws `out_of_range`. */
  function RemoveResult<T>(s: seq<T>, index: int): (r: Option<seq<T>>)
    ensures r.Some? <==> 0 <= index < |s|
    ensures r.Some? ==> |r.value| == |s| - 1 && r.value[..index] == s[..index] && r.value[index..] == s[index + 1..]
  {
    if 0 <= index < |s| then Some(s[..index] + s[index + 1..]) else None
  }

  /** Removing what was just inserted at a valid index gives the list back. */
  lemma RemoveInsertRoundTrip<T>(s: seq<T>, x: T, index: int)
    requires 0 <= index <= |s|
    ensures InsertResult(s, x, index).Some?
    ensures RemoveResult(InsertResult(s, x, index).value, index) == Some(s)
  {
    var t := InsertResult(s, x, index).value;
    assert t[..index] + t[index + 1..] == s[..index] + s[index..];
    assert s[..index] + s[index..] == s;
  }

  /** Inserting at index `|s|` appends: `insert(x, GetSize())` is `push_back(x)`. */
  lemma InsertAtEndAppends<T>(s: seq<T>, x: T)
    ensures InsertResult(s, x, |s|) == Some(s + [x])
  {
    if |s| == 0 {
      assert [x] + s == s + [x];
    } else {
      assert s[..|s|] + [x] + s[|s|..] == s + [x];
    }
  }

  /** Removing index 0 of a non-empty list drops its first value, as `pop_front` does. */
  lemma RemoveFirstIsTail<T>(s: seq<T>)
    requires s != []
    ensures RemoveResult(s, 0) == Some(s[1..])
  {
    assert s[..0] + s[1..] == s[1..];
  }

  /** A negative index is not rejected: on a non-empty list the value lands at position 1. */
  lemma InsertNegativeIndex<T>(s: seq<T>, x: T, index: int)
    requires index < 0
    ensures InsertResult(s, x, index) == (if s == [] then None else InsertResult(s, x, 1))
  {
  }

  /** Inserting past the end, at `|s| + 1` or later, is rejected and leaves nothing to apply. */
  lemma InsertPastEndRejected<T>(s: seq<T>, x: T, index: int)
    ensures index > |s| ==> InsertResult(s, x, index) == None
    ensures 0 <= index <= |s| ==> InsertResult(s, x, index).Some?
  {
  }

  /** Where the values of `s[..i + 1] + [x] + s[i + 1..]` come from. */
  lemma SplicedIn<U>(s: seq<U>, i: nat, x: U, t: seq<U>)
    requires i < |s| && t == s[..i + 1] + [x] + s[i + 1..]
    ensures |t| == |s| + 1 && t[i + 1] == x
    ensures forall j :: 0 <= j <= i ==> t[j] == s[j]
    ensures forall j :: i + 1 < j < |t| ==> t[j] == s[j - 1]
  {
  }

  /** Where the values of `s[..i] + s[i + 1..]` come from. */
  lemma SplicedOut<U>(s: seq<U>, i: nat, t: seq<U>)
    requires i < |s| && t == s[..i] + s[i + 1..]
    ensures |t| == |s| - 1
    ensures forall j :: 0 <= j < i ==> t[j] == s[j]
    ensures forall j :: i <= j < |t| ==> t[j] == s[j + 1]
  {
  }

  class Node<T> {
    var data: T
    var next: Node?<T>

    constructor (data: T, next: Node?<T>)
      ensures this.data == data && this.next == next
    {
      this.data := data;
      this.next := next;
    }
  }

  class SingleList<T> {
    var head: Node?<T>
    var size: int
    /** The nodes in list order, from `head` to the node whose `next` is null. */
    ghost var nodes: seq<Node<T>>
    /** The values of `nodes`, in order. */
    ghost var Contents: seq<T>
    ghost var Repr: set<object>

    /** `nodes` is the chain reached from `head`, without repetition; the values are `Contents`. */
    ghost predicate Linked()
      reads this, Repr
    {
      && this in Repr
      && (forall i :: 0 <= i < |nodes| ==> nodes[i] in Repr)
      && |Contents| == |nodes|
      && (if nodes == [] then head == null else head == nodes[0])
      && (forall i :: 0 <= i < |nodes| ==> nodes[i].data == Contents[i])
      && (forall i :: 0 <= i < |nodes| - 1 ==> nodes[i].next == nodes[i + 1])
      && (nodes != [] ==> nodes[|nodes| - 1].next == null)
      && (forall i, j :: 0 <= i < j < |nodes| ==> nodes[i] != nodes[j])
    }

    /** A linked chain whose `size` counter is its length. */
    ghost predicate Valid()
      reads this, Repr
    {
      Linked() && size == |nodes|
    }

    constructor ()
      ensures Valid() && Contents == [] && fresh(Repr)
    {
      head := null;
      size := 0;
      nodes := [];
      Contents := [];
      Repr := {this};
    }

    /** `GetSize()`: the counter, which always equals the number of values. */
    method GetSize() returns (n: int)
      requires Valid()
      ensures n == |Contents|
    {
      n := size;
    }

    /** `pop_front()`: drops the first value; on an empty list it does nothing. */
    method PopFront()
      requires Valid()
      modifies this
      ensures Valid() && Repr <= old(Repr)
      ensures Contents == if old(Contents) == [] then [] else old(Contents)[1..]
    {
      if head == null {
        return;
      }
      ghost var first := head;
      head := head.next;
      size := size - 1;
      nodes := nodes[1..];
      Contents := Contents[1..];
      Repr := Repr - {first};
    }

    /** `push_back(data)`: walks to the last node and links a new node after it. */
    method PushBack(data: T)
      requires Valid()
      modifies this, Repr
      ensures Valid() && fresh(Repr - old(Repr))
      ensures Contents == old(Contents) + [data]
    {
      var n := new Node(data, null);
      if head == null {
        head := n;
      } else {
        var current := head;
        ghost var k := 0;
        while current.next != null
          invariant 0 <= k < |nodes| && current == nodes[k]
          invariant current.next == if k + 1 < |nodes| then nodes[k + 1] else null
          decreases |nodes| - k
        {
          current := current.next;
          k := k + 1;
        }
        current.next := n;
      }
      size := size + 1;
      nodes := nodes + [n];
      Contents := Contents + [data];
      Repr := Repr + {n};
    }

    /** `clear()`: unlinks the nodes one by one from the front, then resets the counter. */
    method Clear()
      requires Valid()
      modifies this
      ensures Valid() && Contents == [] && Repr <= old(Repr)
    {
      while head != null
        invariant Linked() && Repr <= old(Repr)
        decreases |nodes|
      {
        ghost var first := head;
        head := head.next;
        nodes := nodes[1..];
        Contents := Contents[1..];
        Repr := Repr - {first};
      }
      size := 0;
    }

    /** `push_front(data)`: a new node pointing at the old head becomes the head. */
    method PushFront(data: T)
      requires Valid()
      modifies this
      ensures Valid() && fresh(Repr - old(Repr))
      ensures Contents == [data] + old(Contents)
    {
      var n := new Node(data, head);
      head := n;
      size := size + 1;
      nodes := [n] + nodes;
      Contents := [data] + Contents;
      Repr := Repr + {n};
    }

    /** Links a new node holding `value` after `previous`, the `i`-th node, and counts it. */
    method LinkAfter(previous: Node<T>, i: nat, value: T)
      requires Valid() && i < |nodes| && previous == nodes[i]
      modifies this, Repr
      ensures Valid() && fresh(Repr - old(Repr))
      ensures Contents == old(Contents[..i + 1] + [value] + Contents[i + 1..])
    {
      ghost var oldNodes, oldContents := nodes, Contents;
      var n := new Node(value, previous.next);
      previous.next := n;
      size := size + 1;
      nodes := oldNodes[..i + 1] + [n] + oldNodes[i + 1..];
      Contents := oldContents[..i + 1] + [value] + oldContents[i + 1..];
      Repr := Repr + {n};
      SplicedIn(oldNodes, i, n, nodes);
      SplicedIn(oldContents, i, value, Contents);
      forall j | 0 <= j < |nodes| - 1
        ensures nodes[j].next == nodes[j + 1]
      {
        if j < i {
          assert oldNodes[j] != oldNodes[i];
        } else if j > i + 1 {
          assert oldNodes[j - 1] != oldNodes[i];
        }
      }
      forall a, b | 0 <= a < b < |nodes|
        ensures nodes[a] != nodes[b]
      {
        if b == i + 1 {
          assert nodes[a] in old(Repr);
        } else if a == i + 1 {
          assert nodes[b] in old(Repr);
        }
      }
    }

    /**
     * `insert(value, index)`: index 0 is `push_front`; otherwise the loop steps `index - 1` times
     * from the head and links the new node after the node reached. `ok` is false where the source
     * throws `out_of_range`, and then nothing has changed.
     */
    method Insert(value: T, index: int) returns (ok: bool)
      requires Valid()
      modifies this, Repr
      ensures Valid() && fresh(Repr - old(Repr))
      ensures ok == InsertResult(old(Contents), value, index).Some?
      ensures Contents == if ok then InsertResult(old(Contents), value, index).value else old(Contents)
    {
      if index == 0 {
        PushFront(value);
        return true;
      }
      var previous := head;
      var i := 0;
      while i < index - 1
        invariant 0 <= i <= |nodes|
        invariant if index >= 1 then i <= index - 1 else i == 0
        invariant previous == if i < |nodes| then nodes[i] else null
        decreases index - 1 - i
      {
        if previous == null {
          return false;
        }
        previous := previous.next;
        i := i + 1;
      }
      if previous == null {
        return false;
      }
      LinkAfter(previous, i, value);
      ok := true;
    }

    /** Unlinks the node after `previous`, the `i`-th node, and uncounts it. */
    method UnlinkAfter(previous: Node<T>, i: nat)
      requires Valid() && i + 1 < |nodes| && previous == nodes[i]
      modifies this, Repr
      ensures Valid() && Repr <= old(Repr)
      ensures Contents == old(Contents[..i + 1] + Contents[i + 2..])
    {
      ghost var oldNodes, oldContents := nodes, Contents;
      assert previous.next == nodes[i + 1];
      var doomed := previous.next;
      ghost var rest := doomed.next;
      assert rest == if i + 2 < |oldNodes| then oldNodes[i + 2] else null;
      previous.next := doomed.next;
      size := size - 1;
      nodes := oldNodes[..i + 1] + oldNodes[i + 2..];
      Contents := oldContents[..i + 1] + oldContents[i + 2..];
      Repr := Repr - {doomed};
      SplicedOut(oldNodes, i + 1, nodes);
      SplicedOut(oldContents, i + 1, Contents);
      forall j | 0 <= j < |nodes| - 1
        ensures nodes[j].next == nodes[j + 1]
      {
        if j < i {
          assert oldNodes[j] != oldNodes[i];
        } else if j > i {
          assert oldNodes[j + 1] != oldNodes[i];
        }
      }
      forall j | 0 <= j < |nodes|
        ensures nodes[j] in Repr
      {
        if j <= i {
          assert oldNodes[j] != oldNodes[i + 1];
        } else {
          assert oldNodes[j + 1] != oldNodes[i + 1];
        }
      }
    }

    /**
     * `removeAt(index)`: rejects an index outside `[0, Size)`; index 0 is `pop_front`; otherwise
     * the node after the `index - 1`-th is unlinked. The source's later null checks cannot fail.
     */
    method RemoveAt(index: int) returns (ok: bool)
      requires Valid()
      modifies this, Repr
      ensures Valid() && Repr <= old(Repr)
      ensures ok == RemoveResult(old(Contents), index).Some?
      ensures Contents == if ok then RemoveResult(old(Contents), index).value else old(Contents)
    {
      if index < 0 || index >= size {
        return false;
      }
      if index == 0 {
        PopFront();
        return true;
      }
      var previous := head;
      var i := 0;
      while i < index - 1
        invariant 0 <= i <= index - 1
        invariant previous == nodes[i]
      {
        if previous == null {
          assert false;
        }
        previous := previous.next;
        i := i + 1;
      }
      assert previous.next == nodes[i + 1];
      if previous == null || previous.next == null {
        assert false;
      }
      UnlinkAfter(previous, i);
      ok := true;
    }

    /**
     * `operator[](index)`: the value at `index`, or `None` where the source throws `out_of_range`.
     * The counting walk always finds the node, so the source's final throw cannot be reached.
     */
    method At(index: int) returns (r: Option<T>)
      requires Valid()
      ensures r == if 0 <= index < |Contents| then Some(Contents[index]) else None
    {
      if index < 0 || index >= size {
        return None;
      }
      var counter := 0;
      var current := head;
      while current != null
        invariant 0 <= counter <= index
        invariant current == nodes[counter]
        decreases |nodes| - counter
      {
        if counter == index {
          return Some(current.data);
        }
        current := current.next;
        counter := counter + 1;
      }
      assert false;
    }
  }

  /** The source's `main`: three `push_back`s give size 3 and `slst[2] == 15`; `clear` brings the size to 0. */
  method UsageScenario() returns (sizeAfterPushes: int, third: Option<int>, sizeAfterClear: int)
    ensures sizeAfterPushes == 3 && third == Some(15) && sizeAfterClear == 0
  {
    var list := new SingleList<int>();
    list.PushBack(5);
    list.PushBack(10);
    list.PushBack(15);
    sizeAfterPushes := list.GetSize();
    third := list.At(2);
    list.Clear();
    sizeAfterClear := list.GetSize();
  }
}
