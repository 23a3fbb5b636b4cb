/** The kernel's list library: a FIFO list of (id, data) nodes. A list is
    modelled by the sequence of its nodes from `first` onwards; the pure
    functions below are the specification the List class is proved against,
    and the kernel modules apply them to their own queues. */
module LinkedList {
  import opened Hardware

  datatype Node<T> = Node(id: int, data: T)

  /** add_to_list: the new node goes after the last one; duplicates are not checked. */
  function Append<T>(s: seq<Node<T>>, data: T, id: int): (r: seq<Node<T>>)
    ensures |r| == |s| + 1 && r[..|s|] == s && r[|s|] == Node(id, data)
  {
    s + [Node(id, data)]
  }

  /** Index of the first node whose id is `id`, or -1 when there is none. */
  function IndexOfId<T>(s: seq<Node<T>>, id: int): (k: int)
    ensures -1 <= k < |s|
    ensures k >= 0 ==> s[k].id == id && forall j :: 0 <= j < k ==> s[j].id != id
    ensures k == -1 ==> forall j :: 0 <= j < |s| ==> s[j].id != id
  {
    if s == [] then -1
    else if s[0].id == id then 0
    else
      var k := IndexOfId(s[1..], id);
      if k == -1 then -1 else k + 1
  }

  /** Index of the first node whose data is `data`, or -1 when there is none. */
  function IndexOfData<T(==)>(s: seq<Node<T>>, data: T): (k: int)
    ensures -1 <= k < |s|
    ensures k >= 0 ==> s[k].data == data && forall j :: 0 <= j < k ==> s[j].data != data
    ensures k == -1 ==> forall j :: 0 <= j < |s| ==> s[j].data != data
  {
    if s == [] then -1
    else if s[0].data == data then 0
    else
      var k := IndexOfData(s[1..], data);
      if k == -1 then -1 else k + 1
  }

  /** find_by_id: the first node carrying `id`, or NULL. */
  function FindId<T>(s: seq<Node<T>>, id: int): Option<Node<T>>
  {
    var k := IndexOfId(s, id);
    if k == -1 then None else Some(s[k])
  }

  /** find_by_data: the first node carrying `data`, or NULL. */
  function FindData<T(==)>(s: seq<Node<T>>, data: T): Option<Node<T>>
  {
    var k := IndexOfData(s, data);
    if k == -1 then None else Some(s[k])
  }

  /** The list after remove_from_list: it unlinks the first node whose data matches. */
  function RemoveData<T(==)>(s: seq<Node<T>>, data: T): seq<Node<T>>
  {
    var k := IndexOfData(s, data);
    if k == -1 then s else s[..k] + s[k + 1..]
  }

  /** pop: the head node and the rest of the list, or NULL on an empty list. */
  function PopHead<T>(s: seq<Node<T>>): (r: (Option<Node<T>>, seq<Node<T>>))
  {
    if s == [] then (None, s) else (Some(s[0]), s[1..])
  }

  /** The ids along the list, in order. */
  function Ids<T>(s: seq<Node<T>>): seq<int>
  {
    seq(|s|, i requires 0 <= i < |s| => s[i].id)
  }

  /** Appending then popping is first-in first-out: the head of a non-empty
      list survives the append, and the appended node comes out of an empty one. */
  lemma {:induction false} PopAfterAppend<T>(s: seq<Node<T>>, data: T, id: int)
    ensures PopHead(Append(s, data, id)) ==
      if s == [] then (Some(Node(id, data)), [])
      else (Some(s[0]), Append(s[1..], data, id))
  {
    var t := Append(s, data, id);
    if s == [] {
      assert t == [Node(id, data)];
      assert t[1..] == [];
    } else {
      assert t[0] == s[0];
      assert t[1..] == s[1..] + [Node(id, data)];
    }
  }

  /** Draining a list by repeated pops yields its ids in insertion order. */
  function Drain<T>(s: seq<Node<T>>): (r: seq<int>)
    decreases |s|
  {
    match PopHead(s)
    case (None, _) => []
    case (Some(n), rest) => [n.id] + Drain(rest)
  }

  lemma {:induction false} DrainIsFifo<T>(s: seq<Node<T>>, data: T, id: int)
    ensures Drain(Append(s, data, id)) == Drain(s) + [id]
    decreases |s|
  {
    PopAfterAppend(s, data, id);
    if s != [] {
      DrainIsFifo(s[1..], data, id);
    }
  }

  /** Because duplicates are not checked, appending a node never changes what
      find_by_id already found. */
  lemma FindIdAfterAppend<T>(s: seq<Node<T>>, data: T, id: int, key: int)
    ensures FindId(Append(s, data, id), key) ==
      if FindId(s, key).Some? then FindId(s, key)
      else if key == id then Some(Node(id, data)) else None
  {
    var t := Append(s, data, id);
    var k := IndexOfId(s, key);
    if k >= 0 {
      assert t[k] == s[k];
    } else if key == id {
      assert t[|s|].id == key;
    }
  }

  /** remove_from_list leaves every other node in place: what it keeps is the
      list minus one node, and a node with other data is never the one removed. */
  lemma RemoveKeepsOthers<T>(s: seq<Node<T>>, data: T, other: T)
    requires other != data
    ensures |RemoveData(s, data)| == if IndexOfData(s, data) >= 0 then |s| - 1 else |s|
    ensures IndexOfData(RemoveData(s, data), other) >= 0 <==> IndexOfData(s, other) >= 0
  {
    var k := IndexOfData(s, data);
    if k >= 0 {
      var r := RemoveData(s, data);
      RemovedShift(s, k, r);
      KeptFound(s, k, r, other);
      FoundWasKept(s, k, r, other);
    }
  }

  lemma KeptFound<T>(s: seq<Node<T>>, k: int, r: seq<Node<T>>, other: T)
    requires 0 <= k < |s| && s[k].data != other && |r| == |s| - 1
    requires forall i :: 0 <= i < k ==> r[i] == s[i]
    requires forall i :: k <= i < |r| ==> r[i] == s[i + 1]
    ensures IndexOfData(s, other) >= 0 ==> IndexOfData(r, other) >= 0
  {
    var j := IndexOfData(s, other);
    if j >= 0 {
      if j < k { assert r[j] == s[j]; } else { assert r[j - 1] == s[j]; }
    }
  }

  lemma FoundWasKept<T>(s: seq<Node<T>>, k: int, r: seq<Node<T>>, other: T)
    requires 0 <= k < |s| && |r| == |s| - 1
    requires forall i :: 0 <= i < k ==> r[i] == s[i]
    requires forall i :: k <= i < |r| ==> r[i] == s[i + 1]
    ensures IndexOfData(r, other) >= 0 ==> IndexOfData(s, other) >= 0
  {
    var j := IndexOfData(r, other);
    if j >= 0 {
      if j < k { assert r[j] == s[j]; } else { assert r[j] == s[j + 1]; }
    }
  }

  lemma RemovedShift<T>(s: seq<Node<T>>, k: int, r: seq<Node<T>>)
    requires 0 <= k < |s| && r == s[..k] + s[k + 1..]
    ensures |r| == |s| - 1
    ensures forall i :: 0 <= i < k ==> r[i] == s[i]
    ensures forall i :: k <= i < |r| ==> r[i] == s[i + 1]
  {
  }

  /** A list object: `first` and the node chain are represented by `nodes`. */
  class List<T(==)> {
    var nodes: seq<Node<T>>

    /** init_list: an empty list. */
    constructor ()
      ensures nodes == []
    {
      nodes := [];
    }

    /** add_to_list: walks to the tail and links a new node after it. */
    method Add(data: T, id: int)
      modifies this
      ensures nodes == Append(old(nodes), data, id)
    {
      nodes := nodes + [Node(id, data)];
    }

    /** remove_from_list: 0 after unlinking the first node with this data, -1 when there is none. */
    method Remove(data: T) returns (rc: int)
      modifies this
      ensures rc == (if IndexOfData(old(nodes), data) >= 0 then 0 else -1)
      ensures nodes == RemoveData(old(nodes), data)
    {
      var i := 0;
      while i < |nodes| && nodes[i].data != data
        invariant 0 <= i <= |nodes|
        invariant forall j :: 0 <= j < i ==> nodes[j].data != data
      {
        i := i + 1;
      }
      if i == |nodes| {
        return -1;
      }
      nodes := nodes[..i] + nodes[i + 1..];
      rc := 0;
    }

    /** pop: unlinks and returns the head, or NULL on an empty list. */
    method Pop() returns (node: Option<Node<T>>)
      modifies this
      ensures (node, nodes) == PopHead(old(nodes))
    {
      if nodes == [] {
        return None;
      }
      node := Some(nodes[0]);
      nodes := nodes[1..];
    }

    /** count_items: walks the chain counting nodes. */
    method Count() returns (n: int)
      ensures n == |nodes|
    {
      n := 0;
      while n < |nodes|
        invariant 0 <= n <= |nodes|
      {
        n := n + 1;
      }
    }

    /** find_by_id: the first node with this id, or NULL; the list is not changed. */
    method FindById(id: int) returns (r: Option<Node<T>>)
      ensures r.Some? ==> r.value in nodes && r.value.id == id
      ensures r.None? <==> forall j :: 0 <= j < |nodes| ==> nodes[j].id != id
      ensures r == FindId(nodes, id)
    {
      var i := 0;
      while i < |nodes|
        invariant 0 <= i <= |nodes|
        invariant forall j :: 0 <= j < i ==> nodes[j].id != id
      {
        if nodes[i].id == id {
          return Some(nodes[i]);
        }
        i := i + 1;
      }
      r := None;
    }

    /** find_by_data: the first node with this data, or NULL; the list is not changed. */
    method FindByData(data: T) returns (r: Option<Node<T>>)
      ensures r.Some? ==> r.value in nodes && r.value.data == data
      ensures r.None? <==> forall j :: 0 <= j < |nodes| ==> nodes[j].data != data
      ensures r == FindData(nodes, data)
    {
      var i := 0;
      while i < |nodes|
        invariant 0 <= i <= |nodes|
        invariant forall j :: 0 <= j < i ==> nodes[j].data != data
      {
        if nodes[i].data == data {
          return Some(nodes[i]);
        }
        i := i + 1;
      }
      r := None;
    }
  }

  /** The expectations of the list test harness, replayed on the model:
      three adds, both finds, two removes, two more adds and three pops. */
  method ListScenario()
  {
    var l := new List<int>();
    l.Add(5, 1);
    l.Add(6, 2);
    l.Add(7, 3);
    var n := l.FindById(1);
    assert n == Some(Node(1, 5));
    var n2 := l.FindByData(6);
    assert n2 == Some(Node(2, 6));
    var rc := l.Remove(6);
    assert rc == 0 && l.nodes == [Node(1, 5), Node(3, 7)];
    rc := l.Remove(7);
    assert l.nodes == [Node(1, 5)];
    l.Add(6, 2);
    l.Add(7, 3);
    var p1 := l.Pop();
    var p2 := l.Pop();
    var p3 := l.Pop();
    assert p1 == Some(Node(1, 5)) && p2 == Some(Node(2, 6)) && p3 == Some(Node(3, 7));
    var p4 := l.Pop();
    assert p4 == None && l.nodes == [];
  }
}
