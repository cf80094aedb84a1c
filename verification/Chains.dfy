/** Singly linked lists of pool slots. The C code repeats one pattern for
    members, resends, receive groups, listeners and SLP messages: a slot found
    free in a static array is pushed on the front of a list, and is later taken
    out by moving the head or by splicing around it. */
module Chains {
  import opened Wrappers

  class Node<T> {
    var next: Node?<T>
    var val: T

    constructor (val: T)
      ensures this.val == val && next == null
    {
      this.val := val;
      next := null;
    }
  }

  predicate Distinct<A(==)>(s: seq<A>) {
    forall i, j :: 0 <= i < j < |s| ==> s[i] != s[j]
  }

  function At<T>(nodes: seq<Node<T>>, i: nat): Node?<T> {
    if i < |nodes| then nodes[i] else null
  }

  /** The payloads, in list order. */
  ghost function Values<T>(nodes: seq<Node<T>>): (vs: seq<T>)
    reads nodes
    ensures |vs| == |nodes|
  {
    seq(|nodes|, i requires 0 <= i < |nodes| reads nodes => nodes[i].val)
  }

  function Without<A>(s: seq<A>, i: nat): seq<A>
    requires i < |s|
  {
    s[..i] + s[i + 1..]
  }

  lemma WithoutLength<A>(s: seq<A>, i: nat)
    requires i < |s|
    ensures |Without(s, i)| == |s| - 1
  {
  }

  lemma WithoutMembers<A>(s: seq<A>, i: nat)
    requires i < |s| && Distinct(s)
    ensures Distinct(Without(s, i))
    ensures forall x :: x in Without(s, i) <==> x in s && x != s[i]
  {
    forall x | x in s && x != s[i] ensures x in Without(s, i) {
      var j :| 0 <= j < |s| && s[j] == x;
      assert Without(s, i)[if j < i then j else j - 1] == x;
    }
  }

  lemma ValuesWithout<T>(nodes: seq<Node<T>>, i: nat)
    requires i < |nodes|
    ensures Values(Without(nodes, i)) == Without(Values(nodes), i)
  {
  }

  /** As many members at most as the list that contains them all. */
  lemma {:induction false} AllListed<A>(xs: seq<A>, ys: seq<A>)
    requires Distinct(xs) && forall x :: x in xs ==> x in ys
    ensures |xs| <= |ys|
  {
    if xs == [] {
    } else {
      assert xs[0] in ys;
      var i :| 0 <= i < |ys| && ys[i] == xs[0];
      forall x | x in xs[1..] ensures x in Without(ys, i) {
        assert x in ys && x != xs[0];
        var j :| 0 <= j < |ys| && ys[j] == x;
        assert Without(ys, i)[if j < i then j else j - 1] == x;
      }
      AllListed(xs[1..], Without(ys, i));
    }
  }

  // ----- A pass over a list that changes some entries and drops others -----

  /** The entries that stay, in order, as `visit` leaves them. */
  function Visited<A>(visit: A -> Option<A>, s: seq<A>): seq<A> {
    if s == [] then []
    else
      var init := Visited(visit, s[..|s| - 1]);
      match visit(s[|s| - 1])
      case None => init
      case Some(a) => init + [a]
  }

  /** One visit after the other. */
  function Then<A>(f: A -> Option<A>, g: A -> Option<A>): A -> Option<A> {
    a => match f(a)
         case None => None
         case Some(b) => g(b)
  }

  lemma {:induction false} VisitedTwice<A>(f: A -> Option<A>, g: A -> Option<A>, s: seq<A>)
    ensures Visited(g, Visited(f, s)) == Visited(Then(f, g), s)
  {
    if s == [] {
    } else {
      VisitedTwice(f, g, s[..|s| - 1]);
    }
  }

  lemma {:induction false} VisitedAlike<A>(f: A -> Option<A>, g: A -> Option<A>, s: seq<A>)
    requires forall a :: a in s ==> f(a) == g(a)
    ensures Visited(f, s) == Visited(g, s)
  {
    if s == [] {
    } else {
      assert s[|s| - 1] in s;
      VisitedAlike(f, g, s[..|s| - 1]);
    }
  }

  lemma VisitedOne<A>(visit: A -> Option<A>, a: A)
    ensures Visited(visit, [a]) == match visit(a) case None => [] case Some(b) => [b]
  {
    assert [a][..0] == [];
  }

  /** The list while the pass is under way: `d` entries have been visited. */
  function Midway<A>(visit: A -> Option<A>, s: seq<A>, d: nat): seq<A>
    requires d <= |s|
  {
    Visited(visit, s[..d]) + s[d..]
  }

  function Position<A>(visit: A -> Option<A>, s: seq<A>, d: nat): nat
    requires d <= |s|
  {
    |Visited(visit, s[..d])|
  }

  /** The list after the entry at position `i` was visited. */
  function AfterVisit<A>(visit: A -> Option<A>, s: seq<A>, i: nat): seq<A>
    requires i < |s|
  {
    match visit(s[i])
    case None => Without(s, i)
    case Some(a) => s[i := a]
  }

  lemma MidwayStep<A>(visit: A -> Option<A>, s: seq<A>, d: nat)
    requires d <= |s| && Position(visit, s, d) < |Midway(visit, s, d)|
    ensures d < |s|
    ensures var now, i := Midway(visit, s, d), Position(visit, s, d);
            && now[i] == s[d]
            && Midway(visit, s, d + 1) == AfterVisit(visit, now, i)
            && Position(visit, s, d + 1) == (if visit(s[d]).Some? then i + 1 else i)
  {
    assert s[..d + 1][..d] == s[..d];
  }

  lemma MidwayDone<A>(visit: A -> Option<A>, s: seq<A>, d: nat)
    requires d <= |s| && Position(visit, s, d) >= |Midway(visit, s, d)|
    ensures Midway(visit, s, d) == Visited(visit, s) && s[..d] == s
  {
    assert s[..|s|] == s;
  }

  lemma MidwayStart<A>(visit: A -> Option<A>, s: seq<A>)
    ensures Midway(visit, s, 0) == s && Position(visit, s, 0) == 0
  {
  }

  class Chain<T> {
    var head: Node?<T>
    ghost var nodes: seq<Node<T>>

    constructor ()
      ensures Linked() && nodes == []
    {
      head, nodes := null, [];
    }

    ghost predicate Linked()
      reads this, nodes`next
    {
      && head == At(nodes, 0)
      && Distinct(nodes)
      && forall i {:trigger nodes[i].next} :: 0 <= i < |nodes| ==> nodes[i].next == At(nodes, i + 1)
    }

    method Push(n: Node<T>)
      requires Linked() && n !in nodes
      modifies this`head, this`nodes, n`next
      ensures Linked() && nodes == [n] + old(nodes)
    {
      n.next := head;
      head := n;
      nodes := [n] + nodes;
    }

    /** Take out `n`, whose predecessor is known (none if it is the head). */
    method Unlink(prev: Node?<T>, n: Node<T>, ghost i: nat) returns (next: Node?<T>)
      requires Linked() && i < |nodes| && nodes[i] == n
      requires prev == if i == 0 then null else nodes[i - 1]
      modifies this`head, this`nodes, nodes`next
      ensures Linked() && nodes == Without(old(nodes), i) && next == At(nodes, i)
    {
      next := n.next;
      if prev == null {
        head := next;
      } else {
        prev.next := next;
      }
      nodes := Without(nodes, i);
    }

    /** Take out `n` by searching for its predecessor; a node that is not on the
        list is left alone. */
    method Remove(n: Node<T>) returns (found: bool, next: Node?<T>, ghost i: nat)
      requires Linked()
      modifies this`head, this`nodes, nodes`next
      ensures Linked() && found == (n in old(nodes))
      ensures found ==>
              i < |old(nodes)| && old(nodes)[i] == n && nodes == Without(old(nodes), i) && next == At(nodes, i)
      ensures !found ==> nodes == old(nodes) && next == null
      ensures forall x :: x in nodes <==> x in old(nodes) && x != n
    {
      if n == head {
        WithoutMembers(nodes, 0);
        i := 0;
        next := Unlink(null, n, 0);
        return true, next, 0;
      }
      i := 0;
      var cur := head;
      while cur != null
        invariant 0 <= i <= |nodes| && cur == At(nodes, i)
        invariant nodes == old(nodes) && Linked() && n !in nodes[..i + if cur == null then 0 else 1]
        decreases |nodes| - i
      {
        if cur.next == n {
          i := i + 1;
          WithoutMembers(nodes, i);
          next := Unlink(cur, n, i);
          return true, next, i;
        }
        cur := cur.next;
        i := i + 1;
      }
      return false, null, i;
    }
  }
}
