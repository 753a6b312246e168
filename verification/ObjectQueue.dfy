/** ObjectQueue: a singly linked queue, under its mutex, without the waiting. */
module ObjectQueue {
  import opened Words

  class Item<T> {
    const data: T
    var next: Item?<T>

    constructor (data: T)
      ensures this.data == data && next == null
    {
      this.data, next := data, null;
    }
  }

  /** The item at a position, null beyond the end. */
  ghost function At<T>(s: seq<Item<T>>, i: nat): Item?<T> {
    if i < |s| then s[i] else null
  }

  ghost function Datas<T>(s: seq<Item<T>>): (r: seq<T>)
    ensures |r| == |s|
  {
    seq(|s|, i requires 0 <= i < |s| => s[i].data)
  }

  /** The queue keeps tail when it runs empty; nothing may rely on it until the next item arrives. */
  class ObjectQueue<T> {
    const empty: T
    var head: Item?<T>
    var tail: Item?<T>
    var size: int
    ghost var items: seq<Item<T>>
    ghost var Repr: set<Item<T>>

    ghost predicate Valid()
      reads this, Repr
    {
      && (forall i :: 0 <= i < |items| ==> items[i] in Repr)
      && (forall i, j :: 0 <= i < j < |items| ==> items[i] != items[j])
      && head == At(items, 0)
      && (forall i {:trigger items[i].next} :: 0 <= i < |items| ==> items[i].next == At(items, i + 1))
      && (items != [] ==> tail == items[|items| - 1])
      && size == |items|
    }

    /** The queued values, first in first. */
    ghost function Contents(): (s: seq<T>)
      reads this`items
      ensures |s| == |items|
    {
      Datas(items)
    }

    /** empty is what take returns when there is nothing to take. */
    constructor (empty: T)
      ensures Valid() && Contents() == [] && Repr == {} && this.empty == empty
    {
      this.empty, head, tail, size, items, Repr := empty, null, null, 0, [], {};
    }

    method AddItem(p: Item<T>)
      requires Valid() && p !in Repr && p.next == null
      modifies this, Repr
      ensures Valid() && Contents() == old(Contents()) + [p.data] && Repr == old(Repr) + {p}
    {
      ghost var s := items;
      if head == null {
        assert size == 0;
        head := p;
        tail := p;
      } else {
        assert size > 0 && tail != null;
        assert tail.next == At(s, |s|);
        tail.next := p;
        tail := p;
      }
      size := size + 1;
      items := s + [p];
      Repr := Repr + {p};
    }

    method Add(data: T) returns (n: int)
      requires Valid()
      modifies this, Repr
      ensures Valid() && Contents() == old(Contents()) + [data] && n == |Contents()|
      ensures fresh(Repr - old(Repr))
    {
      var p := new Item(data);
      AddItem(p);
      n := size;
    }

    method AddAll(datas: seq<T>) returns (n: int)
      requires Valid()
      modifies this, Repr
      ensures Valid() && Contents() == old(Contents()) + datas && n == |Contents()|
      ensures fresh(Repr - old(Repr))
    {
      var iter := 0;
      while iter < |datas|
        invariant 0 <= iter <= |datas| && Valid() && fresh(Repr - old(Repr))
        invariant Contents() == old(Contents()) + datas[..iter]
      {
        var p := new Item(datas[iter]);
        AddItem(p);
        iter := iter + 1;
      }
      n := size;
    }

    /** Removes the first item; take and the drain loop share this step. */
    method Pop() returns (data: T)
      requires Valid() && size > 0
      modifies this
      ensures Valid() && old(Contents()) == [data] + Contents() && Repr == old(Repr)
    {
      ghost var s := items;
      assert head == s[0] && head.next == At(s, 1);
      data := head.data;
      var p := head.next;
      head := p;
      size := size - 1;
      items := s[1..];
      assert forall i :: 0 <= i < |items| ==> items[i] == s[i + 1];
    }

    method Take() returns (data: T)
      requires Valid()
      modifies this
      ensures Valid() && Repr == old(Repr)
      ensures old(Contents()) == [] ==> data == empty && Contents() == []
      ensures old(Contents()) != [] ==> old(Contents()) == [data] + Contents()
    {
      if size <= 0 {
        return empty;
      }
      data := Pop();
    }

    /** Takes up to num items, all of them when num is not positive. */
    method Drain(num: int) returns (l: seq<T>)
      requires Valid()
      modifies this
      ensures Valid() && Repr == old(Repr) && old(Contents()) == l + Contents()
      ensures |l| == if num <= 0 then |old(Contents())| else Min(num, |old(Contents())|)
    {
      l := [];
      if size <= 0 {
        return;
      }
      var count := if num <= 0 then size else if num < size then num else size;
      ghost var total := count;
      while count > 0
        invariant Valid() && Repr == old(Repr) && 0 <= count <= size && |l| == total - count
        invariant old(Contents()) == l + Contents()
      {
        assert head != null && size > 0;
        var data := Pop();
        assert l + ([data] + Contents()) == l + [data] + Contents();
        l := l + [data];
        count := count - 1;
      }
    }

    method Peek() returns (data: T)
      requires Valid()
      ensures data == if Contents() == [] then empty else Contents()[0]
    {
      if size <= 0 {
        return empty;
      }
      data := head.data;
    }

    method Clear()
      requires Valid()
      modifies this
      ensures Valid() && Contents() == [] && Repr == old(Repr)
    {
      while head != null
        invariant Valid() && Repr == old(Repr)
        decreases size
      {
        var data := Pop();
      }
      assert size == 0;
    }
  }
}
