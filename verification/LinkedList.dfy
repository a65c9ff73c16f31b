/** The singly linked list between two dummy nodes, the second of which moves when the list grows. */
module LinkedList {

  // void *; 0 is the null pointer
  type Ptr = nat

  class Node {
    var next: Node?
    var data: Ptr

    constructor (next: Node?, data: Ptr)
      ensures this.next == next && this.data == data
    {
      this.next, this.data := next, data;
    }
  }

  // The nodes are a chain by `next`, without repetition, that ends at the last of them.
  ghost predicate Chained(spine: seq<Node>)
    reads spine
  {
    && 2 <= |spine| && spine[|spine| - 1].next == null
    && (forall i, j | 0 <= i && j == i + 1 && j < |spine| :: spine[i].next == spine[j])
    && (forall i, j | 0 <= i < j < |spine| :: spine[i] != spine[j])
  }

  // The data of the nodes between the first and the last
  ghost function Between(spine: seq<Node>): (c: seq<Ptr>)
    reads spine
    requires 2 <= |spine|
    ensures |c| == |spine| - 2
  {
    seq(|spine| - 2, i requires 0 <= i < |spine| - 2 reads spine => spine[i + 1].data)
  }

  function Without<T>(s: seq<T>, k: nat): (r: seq<T>)
    requires k < |s|
    ensures |r| == |s| - 1
    ensures forall i | 0 <= i < |r| :: r[i] == if i < k then s[i] else s[i + 1]
  {
    s[..k] + s[k + 1..]
  }

  function Inserted<T>(s: seq<T>, k: nat, x: T): (r: seq<T>)
    requires k <= |s|
    ensures |r| == |s| + 1
    ensures forall i | 0 <= i < |r| :: r[i] == if i < k then s[i] else if i == k then x else s[i - 1]
  {
    s[..k] + [x] + s[k..]
  }

  // A chain broken behind its k-th node, with n between the ends, is a chain again.
  lemma InsertedChained(s: seq<Node>, t: seq<Node>, k: nat, n: Node)
    requires 2 <= |s| && k < |s| - 1 && n !in s && t == Inserted(s, k + 1, n)
    requires s[k].next == n && n.next == s[k + 1] && s[|s| - 1].next == null
    requires forall i, j | 0 <= i && j == i + 1 && j < |s| && i != k :: s[i].next == s[j]
    requires forall i, j | 0 <= i < j < |s| :: s[i] != s[j]
    ensures Chained(t)
  {
    forall i, j | 0 <= i && j == i + 1 && j < |t| ensures t[i].next == t[j] {
      if i < k {
        assert s[i].next == s[i + 1];
      } else if i > k + 1 {
        assert s[i - 1].next == s[i];
      }
    }
  }

  lemma RemovedChained(s: seq<Node>, t: seq<Node>, k: nat)
    requires 3 <= |s| && 0 < k < |s| - 1 && t == Without(s, k)
    requires s[k - 1].next == s[k + 1] && s[|s| - 1].next == null
    requires forall i, j | 0 <= i && j == i + 1 && j < |s| && i != k - 1 :: s[i].next == s[j]
    requires forall i, j | 0 <= i < j < |s| :: s[i] != s[j]
    ensures Chained(t)
  {
    forall i, j | 0 <= i && j == i + 1 && j < |t| ensures t[i].next == t[j] {
      if i < k - 1 {
        assert s[i].next == s[i + 1];
      } else if i > k - 1 {
        assert s[i + 1].next == s[i + 2];
      }
    }
  }

  lemma InsertedInner<T>(s: seq<T>, k: nat, x: T)
    requires k < |s| - 1
    ensures Inserted(s, k + 1, x)[1..|s|] == Inserted(s[1..|s| - 1], k, x)
  {
  }

  lemma WithoutInner<T>(s: seq<T>, k: nat)
    requires 0 < k < |s| - 1
    ensures Without(s, k)[1..|s| - 2] == Without(s[1..|s| - 1], k - 1)
  {
  }

  class List {
    var head: Node
    var tail: Node
    var length: nat
    ghost var spine: seq<Node>

    ghost predicate Valid()
      reads this, spine
    {
      && Chained(spine)
      && head == spine[0] && tail == spine[|spine| - 1] && length == |spine| - 2
    }

    ghost function Contents(): (c: seq<Ptr>)
      reads this, spine
      requires Valid()
      ensures |c| == length
    {
      Between(spine)
    }

    // The nodes that hold the elements: the handles push, pushback and insert return
    ghost function Handles(): (h: seq<Node>)
      reads this, spine
      requires Valid()
      ensures |h| == length
    {
      spine[1..|spine| - 1]
    }

    // list_create, with memory for it
    constructor ()
      ensures Valid() && Contents() == [] && fresh(spine)
    {
      var t := new Node(null, 0);
      var h := new Node(t, 0xdead);
      head, tail, length := h, t, 0;
      spine := [h, t];
    }

    // list_push; `memory` says whether malloc finds memory for the node.
    method Push(val: Ptr, memory: bool) returns (node: Node?)
      requires Valid()
      modifies this, head
      ensures Valid() && (node == null <==> !memory)
      ensures !memory ==> spine == old(spine) && Contents() == old(Contents())
      ensures memory ==> fresh(node) && Handles() == [node] + old(Handles()) && Contents() == [val] + old(Contents())
    {
      if !memory {
        return null;
      }
      var n := new Node(head.next, val);
      InsertedInner(spine, 0, n);
      LinkBehind(head, n, 0);
      node := n;
      assert Inserted(old(Handles()), 0, n) == [n] + old(Handles());
      assert Inserted(old(Contents()), 0, val) == [val] + old(Contents());
    }

    // list_pushback: the old dummy becomes the element, a new node the dummy.
    method PushBack(val: Ptr, memory: bool) returns (last: Node?)
      requires Valid()
      modifies this, tail
      ensures Valid() && (last == null <==> !memory)
      ensures !memory ==> spine == old(spine) && Contents() == old(Contents())
      ensures memory ==> last == old(tail) && fresh(tail)
                         && Handles() == old(Handles()) + [last] && Contents() == old(Contents()) + [val]
    {
      if !memory {
        return null;
      }
      var n := new Node(null, 0);
      last := tail;
      Adopt(n, val);
    }

    // The end of pushback, move and rotate: the old dummy takes the value, `node` becomes the dummy.
    method Adopt(node: Node, val: Ptr)
      requires Valid() && node !in spine
      modifies this, tail, node
      ensures Valid() && tail == node && spine == old(spine) + [node] && Contents() == old(Contents()) + [val]
    {
      node.next := null;
      tail.next := node;
      tail.data := val;
      tail := node;
      node.data := 0;
      length := length + 1;
      spine := spine + [node];
    }

    // The start of pop and rotate: the first element's node leaves the chain.
    method DropFirst() returns (node: Node)
      requires Valid() && 0 < length
      modifies this, head
      ensures Valid() && node == old(spine)[1] && tail == old(tail)
      ensures spine == Without(old(spine), 1) && Contents() == old(Contents())[1..]
    {
      assert head.next == spine[1] && spine[1].next == spine[2];
      node := head.next;
      head.next := node.next;
      length := length - 1;
      spine := Without(spine, 1);
    }

    // list_pop
    method Pop() returns (val: Ptr)
      requires Valid()
      modifies this, head
      ensures Valid()
      ensures if old(Contents()) == [] then val == 0 && spine == old(spine) && Contents() == []
              else val == old(Contents())[0] && Handles() == old(Handles())[1..] && Contents() == old(Contents())[1..]
    {
      assert head.next == spine[1] && (|spine| > 2 ==> spine[1].next == spine[2]);
      if head.next.next == null {
        return 0;
      }
      val := head.next.data;
      WithoutInner(spine, 1);
      var node := DropFirst();
    }

    // list_popback
    method PopBack() returns (val: Ptr)
      requires Valid()
      modifies this, spine
      ensures Valid()
      ensures var n := old(length);
              if n == 0 then val == 0 && spine == old(spine) && Contents() == []
              else val == old(Contents())[n - 1]
                   && Handles() == old(Handles())[..n - 1] && Contents() == old(Contents())[..n - 1]
    {
      assert head.next == spine[1] && (|spine| > 2 ==> spine[1].next == spine[2]);
      if head.next.next == null {
        return 0;
      }
      var last := head;
      ghost var k := 0;
      while last.next.next.next != null
        invariant k + 2 < |spine| && last == spine[k] && last.next == spine[k + 1] && spine[k + 1].next == spine[k + 2]
        decreases |spine| - k
      {
        assert k + 3 < |spine| && spine[k + 2].next == spine[k + 3];
        last := last.next;
        k := k + 1;
      }
      assert k + 3 == |spine|;
      var node := last.next;
      val := node.data;
      last.next := tail;
      length := length - 1;
      spine := spine[..k + 1] + [tail];
    }

    // The search loop of remove and move: the node in front of `node`
    method Before(node: Node, ghost k: nat) returns (last: Node)
      requires Valid() && 0 < k < |spine| && spine[k] == node
      ensures last == spine[k - 1]
    {
      last := head;
      ghost var i := 0;
      while last.next != node
        invariant i < k && last == spine[i] && last.next == spine[i + 1]
        decreases k - i
      {
        assert i + 2 <= k && spine[i + 1].next == spine[i + 2];
        last := last.next;
        i := i + 1;
      }
    }

    method Unlink(node: Node, ghost k: nat)
      requires Valid() && 0 < k < |spine| - 1 && spine[k] == node
      modifies this, spine[k - 1]
      ensures Valid() && spine == Without(old(spine), k)
      ensures forall i | 0 <= i < |spine| :: spine[i].data == old(spine[if i < k then i else i + 1].data)
    {
      var last := Before(node, k);
      assert spine[k - 1].next == spine[k] && spine[k].next == spine[k + 1];
      ghost var s := spine;
      last.next := node.next;
      length := length - 1;
      spine := Without(s, k);
      RemovedChained(s, spine, k);
    }

    // The unlinking both remove and move do, and the element it takes out
    method Take(node: Node, ghost k: nat) returns (val: Ptr)
      requires Valid() && 0 < k < |spine| - 1 && spine[k] == node
      modifies this, spine[k - 1]
      ensures Valid() && spine == Without(old(spine), k) && val == old(Contents())[k - 1]
      ensures Contents() == Without(old(Contents()), k - 1)
    {
      val := node.data;
      Unlink(node, k);
    }

    // list_remove of the k-th node of the chain
    method Remove(node: Node, ghost k: nat) returns (val: Ptr)
      requires Valid() && k < |spine| && spine[k] == node
      modifies this, spine
      ensures Valid()
      ensures if k == 0 || k == |old(spine)| - 1 then val == 0 && spine == old(spine) && Contents() == old(Contents())
              else val == old(Contents())[k - 1] && Handles() == Without(old(Handles()), k - 1)
                   && Contents() == Without(old(Contents()), k - 1)
    {
      if node == head || node == tail {
        return 0;
      }
      WithoutInner(spine, k);
      val := Take(node, k);
    }

    // The end of push and insert: `n`, which points behind `prevnode` already, is linked in.
    method LinkBehind(prevnode: Node, n: Node, ghost k: nat)
      requires Valid() && k < |spine| - 1 && spine[k] == prevnode && n !in spine && n.next == prevnode.next
      modifies this, prevnode`next
      ensures Valid() && spine == Inserted(old(spine), k + 1, n) && Contents() == Inserted(old(Contents()), k, n.data)
      ensures n.data == old(n.data)
    {
      ghost var s := spine;
      assert s[k].next == s[k + 1];
      prevnode.next := n;
      length := length + 1;
      spine := Inserted(s, k + 1, n);
      InsertedChained(s, spine, k, n);
    }

    // list_insert behind the k-th node of the chain; behind the last one nothing is inserted.
    method Insert(prevnode: Node, val: Ptr, memory: bool, ghost k: nat) returns (node: Node?)
      requires Valid() && k < |spine| && spine[k] == prevnode
      modifies this, spine
      ensures Valid() && (node == null <==> !memory || k == |old(spine)| - 1)
      ensures node == null ==> spine == old(spine) && Contents() == old(Contents())
      ensures node != null ==> fresh(node) && Handles() == Inserted(old(Handles()), k, node)
                               && Contents() == Inserted(old(Contents()), k, val)
    {
      if !memory {
        return null;
      }
      assert k + 1 < |spine| ==> spine[k].next == spine[k + 1];
      var n := new Node(prevnode.next, val);
      if prevnode.next == null {
        return null;
      }
      InsertedInner(spine, k, n);
      LinkBehind(prevnode, n, k);
      node := n;
    }

    // list_rotate: the first node becomes the dummy, its element moves into the old dummy.
    method Rotate() returns (last: Node?)
      requires Valid()
      modifies this, spine
      ensures Valid()
      ensures if old(length) == 0 then last == null && spine == old(spine) && Contents() == []
              else var (h, c) := (old(Handles()), old(Contents()));
                   last == old(tail) && Handles() == h[1..] + [last] && Contents() == c[1..] + [c[0]]
    {
      assert head.next == spine[1] && (|spine| > 2 ==> spine[1].next == spine[2]);
      if head.next.next == null {
        return null;
      }
      var val := head.next.data;
      last := tail;
      WithoutInner(spine, 1);
      var node := DropFirst();
      Adopt(node, val);
    }
  }

  ghost predicate Apart(x: seq<Node>, y: seq<Node>) {
    forall i, j | 0 <= i < |x| && 0 <= j < |y| :: x[i] != y[j]
  }

  // list_move of the k-th node of src to the end of dst; the dummy of src is not moved.
  method Move(dst: List, src: List, node: Node, ghost k: nat) returns (val: Ptr)
    requires dst.Valid() && src.Valid() && (dst == src || Apart(dst.spine, src.spine))
    requires 0 < k < |src.spine| && src.spine[k] == node
    modifies dst, dst.spine, src, src.spine
    ensures dst.Valid() && src.Valid()
    ensures k == |old(src.spine)| - 1 ==>
              val == 0 && src.spine == old(src.spine) && dst.spine == old(dst.spine)
              && src.Contents() == old(src.Contents()) && dst.Contents() == old(dst.Contents())
    ensures k < |old(src.spine)| - 1 ==> val == old(src.Contents())[k - 1]
    ensures k < |old(src.spine)| - 1 && dst != src ==>
              && src.Contents() == Without(old(src.Contents()), k - 1) && src.spine == Without(old(src.spine), k)
              && dst.Contents() == old(dst.Contents()) + [val] && dst.spine == old(dst.spine) + [node]
    ensures k < |old(src.spine)| - 1 && dst == src ==>
              && src.Contents() == Without(old(src.Contents()), k - 1) + [val]
              && src.spine == Without(old(src.spine), k) + [node]
  {
    hide Between;
    assert k + 1 < |src.spine| ==> src.spine[k].next == src.spine[k + 1];
    if node.next == null {
      return 0;
    }
    val := src.Take(node, k);
    if dst != src { Apart2(dst.spine, old(src.spine), k); }
    dst.Adopt(node, val);
  }

  lemma Apart2(x: seq<Node>, y: seq<Node>, k: nat)
    requires 0 < |x| && k < |y| && Apart(x, y) && forall i, j | 0 <= i < j < |y| :: y[i] != y[j]
    ensures y[k] !in x && y[k] !in Without(y, k) && x[|x| - 1] !in Without(y, k)
  {
  }

  /**
    A traversal in order, up to the first callback that returns a node. The callback gets the node and
    its data, and may change anything but the list: S is whatever it works on.
   */
  function Iterated<S>(f: (S, Node, Ptr) -> (S, Node?), h: seq<Node>, c: seq<Ptr>, s: S): (S, Node?)
    requires |h| == |c|
    decreases |h|
  {
    if h == [] then (s, null)
    else
      var (t, r) := f(s, h[0], c[0]);
      if r != null then (t, r) else Iterated(f, h[1..], c[1..], t)
  }

  // list_foreach
  method Foreach<S>(list: List, f: (S, Node, Ptr) -> (S, Node?), s0: S) returns (s: S, r: Node?)
    requires list.Valid()
    ensures (s, r) == Iterated(f, list.Handles(), list.Contents(), s0)
  {
    var node := list.head.next;
    ghost var k := 0;
    ghost var h, c := list.Handles(), list.Contents();
    s := s0;
    assert node == list.spine[1] && h[0..] == h && c[0..] == c;
    while node.next != null
      invariant k <= |h| && node == list.spine[k + 1]
      invariant k < |h| ==> node.next == list.spine[k + 2]
      invariant Iterated(f, h[k..], c[k..], s) == Iterated(f, h, c, s0)
      decreases |h| - k
    {
      assert k < |h| && list.spine[k + 1].next == list.spine[k + 2];
      assert h[k..][1..] == h[k + 1..] && c[k..][1..] == c[k + 1..];
      s, r := CallBack(f, s, node);
      if r != null {
        return;
      }
      node := node.next;
      k := k + 1;
    }
    r := null;
  }

  method CallBack<S>(f: (S, Node, Ptr) -> (S, Node?), s0: S, node: Node) returns (s: S, r: Node?)
    ensures (s, r) == f(s0, node, node.data)
  {
    var t := f(s0, node, node.data);
    return t.0, t.1;
  }

  // What the callbacks have done to s after the first n elements, none of which ended the traversal
  function Threaded<S>(f: (S, Node, Ptr) -> (S, Node?), h: seq<Node>, c: seq<Ptr>, s: S, n: nat): S
    requires n <= |h| == |c|
  {
    if n == 0 then s else f(Threaded(f, h, c, s, n - 1), h[n - 1], c[n - 1]).0
  }

  // Callback n, on the state the ones before it have left, returns no node.
  ghost predicate GoesOn<S>(f: (S, Node, Ptr) -> (S, Node?), h: seq<Node>, c: seq<Ptr>, s: S, n: nat)
    requires n < |h| == |c|
  {
    f(Threaded(f, h, c, s, n), h[n], c[n]).1 == null
  }

  // The state goes from callback to callback, front to back: if the first n of them go on, the result is the
  // one of the next, or null behind the last.
  lemma {:induction false} IteratedThreads<S>(f: (S, Node, Ptr) -> (S, Node?), h: seq<Node>, c: seq<Ptr>, s: S, n: nat)
    requires n <= |h| == |c| && forall k | 0 <= k < n :: GoesOn(f, h, c, s, k)
    ensures n == |h| ==> Iterated(f, h, c, s) == (Threaded(f, h, c, s, n), null)
    ensures n < |h| && !GoesOn(f, h, c, s, n) ==> Iterated(f, h, c, s) == f(Threaded(f, h, c, s, n), h[n], c[n])
    ensures Iterated(f, h, c, s) == Iterated(f, h[n..], c[n..], Threaded(f, h, c, s, n))
    decreases n
  {
    if n == 0 {
      assert h[0..] == h && c[0..] == c;
    } else {
      IteratedThreads(f, h, c, s, n - 1);
      assert GoesOn(f, h, c, s, n - 1);
      assert h[n - 1..][1..] == h[n..] && c[n - 1..][1..] == c[n..];
    }
  }

  // A callback that only tests its element, like idcmp
  function Tester(test: Ptr -> bool): ((), Node, Ptr) -> ((), Node?) {
    (s, node, data) => (s, if test(data) then node else null)
  }

  // The search with a test finds the node of the first element that passes, or null exactly when none does.
  lemma {:induction false} FirstFound(h: seq<Node>, c: seq<Ptr>, test: Ptr -> bool)
    requires |h| == |c|
    ensures var r := Iterated(Tester(test), h, c, ()).1;
            if r == null then forall i | 0 <= i < |c| :: !test(c[i])
            else exists k: nat :: IsFirst(c, test, k) && r == h[k]
    decreases |h|
  {
    if h != [] {
      if test(c[0]) {
        assert IsFirst(c, test, 0);
      } else {
        FirstFound(h[1..], c[1..], test);
        FirstBehind(h, c, test);
      }
    }
  }

  lemma FirstBehind(h: seq<Node>, c: seq<Ptr>, test: Ptr -> bool)
    requires |h| == |c| && h != [] && !test(c[0])
    ensures forall k: nat {:trigger IsFirst(c[1..], test, k)} :: IsFirst(c[1..], test, k) ==> IsFirst(c, test, k + 1)
    ensures (forall i | 0 <= i < |c[1..]| :: !test(c[1..][i])) ==> forall i | 0 <= i < |c| :: !test(c[i])
  {
    forall i | 0 < i < |c| ensures c[i] == c[1..][i - 1] {}
  }

  ghost predicate IsFirst(c: seq<Ptr>, test: Ptr -> bool, k: nat) {
    k < |c| && test(c[k]) && forall i | 0 <= i < k :: !test(c[i])
  }

  // list_cnext of the k-th node of the chain: the next element, around the end; from the leading dummy, the first
  method Cnext(list: List, node: Node, ghost k: nat) returns (next: Node)
    requires list.Valid() && 0 < list.length && k <= list.length && node == list.spine[k]
    ensures next == list.Handles()[if k == list.length then 0 else k]
  {
    assert list.spine[k].next == list.spine[k + 1];
    assert list.spine[0].next == list.spine[1];
    assert k + 2 < |list.spine| ==> list.spine[k + 1].next == list.spine[k + 2];
    if node.next.next == null {
      next := list.head.next;
    } else {
      next := node.next;
    }
  }
}
