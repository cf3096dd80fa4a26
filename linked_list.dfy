/**
 * The singly linked list of owned strings: the `No` node and the list whose
 * head is the C program's global `inicio`, here a field of a `TextList`
 * object. The ghost sequence `Nodes` lists the chain's nodes from the head;
 * `Contents` is the list's value, the texts in the same order.
 */
module LinkedList {
  import opened TextSeq

  datatype Option<T> = None | Some(value: T)

  /** What a traversal reports: the list is empty, or the texts met from head to tail. */
  datatype Listing = Empty | Shown(items: seq<string>)

  /** One entry: an owned text and the link to the next entry. */
  class Node {
    var data: string
    var next: Node?

    /** A detached node holding `v`. */
    constructor (v: string)
      ensures data == v && next == null
    {
      data := v;
      next := null;
    }
  }

  /**
   * `b` is `a` with the element at position `i` taken out and the later ones
   * moved down. Unlink states its effect in this pointwise form rather than
   * as `a[..i] + a[i + 1..]`: take and drop terms next to the quantifiers of
   * Valid() send the solver's quantifier matching into loops. Remove turns
   * the pointwise form into the splice with SkipsIsSplice.
   */
  ghost predicate Skips<T>(b: seq<T>, a: seq<T>, i: nat)
  {
    i < |a| && |b| == |a| - 1 &&
    forall j :: 0 <= j < |b| ==> b[j] == a[if j < i then j else j + 1]
  }

  /** Proof helper for Remove: skipping position `i` is splicing the sequence around `i`. */
  lemma SkipsIsSplice<T>(b: seq<T>, a: seq<T>, i: nat)
    requires Skips(b, a, i)
    ensures b == a[..i] + a[i + 1..]
  {
  }

  class TextList {
    var head: Node?

    ghost var Nodes: seq<Node>
    ghost var Contents: seq<string>
    ghost var Repr: set<object>

    /**
     * The chain from `head` is exactly `Nodes`: each node links to the next
     * one, the last to null, no node occurs twice (so the chain is acyclic),
     * and `head` is null exactly when the list is empty.
     */
    ghost predicate Valid()
      reads this, Repr
    {
      this in Repr &&
      (forall i :: 0 <= i < |Nodes| ==> Nodes[i] in Repr) &&
      |Nodes| == |Contents| &&
      head == (if Nodes == [] then null else Nodes[0]) &&
      (forall i :: 0 <= i < |Nodes| ==> Nodes[i].data == Contents[i]) &&
      (forall i {:trigger Nodes[i].next} :: 0 <= i < |Nodes| - 1 ==> Nodes[i].next == Nodes[i + 1]) &&
      (Nodes != [] ==> Nodes[|Nodes| - 1].next == null) &&
      (forall i, j :: 0 <= i < j < |Nodes| ==> Nodes[i] != Nodes[j])
    }

    /** The node reached from `n` after following `k` links (null once the chain ends). */
    ghost function Follow(n: Node?, k: nat): Node?
      reads this, Repr
      requires Valid()
      requires n == null || n in Nodes
      decreases k
    {
      if k == 0 || n == null then n
      else
        // the position of `n` in the chain, which tells where `n.next` is
        var i :| 0 <= i < |Nodes| && Nodes[i] == n;
        Follow(n.next, k - 1)
    }

    /** Starting at position `i`, `k` links lead to position `i + k`, or to null at the end. */
    lemma {:induction false} FollowFrom(i: nat, k: nat)
      requires Valid() && i < |Nodes| && i + k <= |Nodes|
      ensures Follow(Nodes[i], k) == if i + k < |Nodes| then Nodes[i + k] else null
      decreases k
    {
      if k > 0 {
        if i + 1 < |Nodes| {
          FollowFrom(i + 1, k - 1);
        }
      }
    }

    /** Following the links from the head reaches the end in exactly |Contents| steps. */
    lemma ChainLength()
      requires Valid()
      ensures forall k :: 0 <= k < |Contents| ==> Follow(head, k) != null && Follow(head, k).data == Contents[k]
      ensures Follow(head, |Contents|) == null
    {
      forall k | 0 <= k < |Contents|
        ensures Follow(head, k) != null && Follow(head, k).data == Contents[k]
      {
        FollowFrom(0, k);
      }
      if Nodes != [] {
        FollowFrom(0, |Nodes|);
      }
    }

    /** The empty list: `inicio == NULL`. */
    constructor ()
      ensures Valid() && fresh(Repr)
      ensures Contents == [] && head == null
    {
      head := null;
      Nodes := [];
      Contents := [];
      Repr := {this};
    }

    /** inserir: append `v` in a new node linked after the current last node. */
    method Insert(v: string)
      requires Valid()
      modifies Repr
      ensures Valid() && fresh(Repr - old(Repr))
      ensures Contents == old(Contents) + [v]
      ensures |Nodes| == |old(Nodes)| + 1 && Nodes[..|old(Nodes)|] == old(Nodes)
      ensures fresh(Nodes[|old(Nodes)|]) && Repr == old(Repr) + {Nodes[|old(Nodes)|]}
      ensures old(head) != null ==> Nodes[|old(Nodes)| - 1].next == Nodes[|old(Nodes)|]
      ensures old(head) == null ==> head != null && head.next == null && head.data == v
      ensures old(head) != null ==> head == old(head)
    {
      var n := new Node(v);
      if head == null {
        head := n;
        Nodes, Contents, Repr := [n], [v], Repr + {n};
        return;
      }
      var aux := head;
      ghost var i := 0;
      while aux.next != null
        invariant 0 <= i < |Nodes| && aux == Nodes[i]
        decreases |Nodes| - i
      {
        aux := aux.next;
        i := i + 1;
      }
      assert i == |Nodes| - 1;
      aux.next := n;
      Nodes, Contents, Repr := Nodes + [n], Contents + [v], Repr + {n};
    }

    /** listar: report an empty list, or walk the chain from head to tail collecting each text once. */
    method List() returns (r: Listing)
      requires Valid()
      ensures r == Empty <==> Contents == []
      ensures r == Empty <==> head == null
      ensures r.Shown? ==> r.items == Contents
    {
      if head == null {
        return Empty;
      }
      var aux := head;
      var items := [];
      ghost var i := 0;
      while aux != null
        invariant 0 <= i <= |Nodes|
        invariant aux == if i < |Nodes| then Nodes[i] else null
        invariant items == Contents[..i]
        decreases |Nodes| - i
      {
        items := items + [aux.data];
        aux := aux.next;
        i := i + 1;
      }
      return Shown(items);
    }

    /** consultar: the text at zero-based position `pos`, or None when `pos` is negative or past the end. */
    method Get(pos: int) returns (r: Option<string>)
      requires Valid()
      ensures r == None <==> pos < 0 || pos >= |Contents|
      ensures r.Some? ==> r.value == Contents[pos]
    {
      if pos < 0 {
        return None;
      }
      var aux := head;
      var i := 0;
      while aux != null
        invariant 0 <= i <= |Nodes| && i <= pos
        invariant aux == if i < |Nodes| then Nodes[i] else null
        decreases |Nodes| - i
      {
        if i == pos {
          return Some(aux.data);
        }
        aux := aux.next;
        i := i + 1;
      }
      return None;
    }

    /** The in-place write of alterar: node `i` now holds `value` and its old text leaves the list. */
    method Overwrite(aux: Node, ghost i: nat, value: string)
      requires Valid() && i < |Nodes| && aux == Nodes[i]
      modifies this, aux
      ensures Valid() && Repr == old(Repr) && Nodes == old(Nodes) && head == old(head)
      ensures Contents == old(Contents)[i := value]
    {
      assert forall j :: 0 <= j < |Nodes| && j != i ==> Nodes[j] != aux;
      aux.data := value;
      Contents := Contents[i := value];
    }

    /** alterar: replace the text of the first node holding `key` by `value`; report whether one was found. */
    method Update(key: string, value: string) returns (found: bool)
      requires Valid()
      modifies Repr
      ensures Valid() && Repr == old(Repr) && Nodes == old(Nodes) && head == old(head)
      ensures found <==> key in old(Contents)
      ensures Contents == ReplaceFirst(old(Contents), key, value)
      ensures found ==> Contents == old(Contents)[IndexOf(old(Contents), key) := value]
      ensures !found ==> Contents == old(Contents)
    {
      var aux := head;
      ghost var i := 0;
      while aux != null
        invariant 0 <= i <= |Nodes|
        invariant aux == if i < |Nodes| then Nodes[i] else null
        invariant forall j :: 0 <= j < i ==> Contents[j] != key
        decreases |Nodes| - i
      {
        if aux.data == key {
          assert IndexOf(Contents, key) == i;
          ReplaceFirstIsUpdate(Contents, key, value);
          Overwrite(aux, i, value);
          return true;
        }
        aux := aux.next;
        i := i + 1;
      }
      ReplaceFirstIsUpdate(Contents, key, value);
      return false;
    }

    /**
     * The pointer surgery of removerElemento: node `i` leaves the chain, its
     * predecessor (or the head, when there is none) taking over its successor.
     */
    method Unlink(prev: Node?, aux: Node, ghost i: nat)
      requires Valid() && i < |Nodes| && aux == Nodes[i]
      requires prev == if i == 0 then null else Nodes[i - 1]
      modifies Repr
      ensures Valid()
      ensures Skips(Nodes, old(Nodes), i) && Skips(Contents, old(Contents), i)
      ensures Repr == old(Repr) - {aux}
      ensures i == 0 ==> head == old(aux.next)
      ensures i != 0 ==> head == old(head)
    {
      ghost var ns, cs := Nodes, Contents;
      ghost var nodes := seq(|ns| - 1, j requires 0 <= j < |ns| - 1 => if j < i then ns[j] else ns[j + 1]);
      ghost var contents := seq(|cs| - 1, j requires 0 <= j < |cs| - 1 => if j < i then cs[j] else cs[j + 1]);
      assert Skips(nodes, ns, i) && Skips(contents, cs, i);
      assert forall j :: 0 <= j < |ns| && j != i ==> ns[j] != aux;
      assert forall j :: 0 <= j < |ns| && j != i - 1 ==> ns[j] != prev;
      if prev == null {
        head := aux.next;
      } else {
        prev.next := aux.next;
      }
      Nodes, Contents, Repr := nodes, contents, Repr - {aux};
      assert Valid() by {
        forall j | 0 <= j < |Nodes|
          ensures Nodes[j].data == Contents[j] && Nodes[j] in Repr
        {
        }
        forall j | 0 <= j < |Nodes| - 1
          ensures Nodes[j].next == Nodes[j + 1]
        {
          if j + 1 == i {
            assert Nodes[j] == prev;
          }
        }
        assert Nodes != [] ==> Nodes[|Nodes| - 1] == if i == |ns| - 1 then prev else ns[|ns| - 1];
      }
    }

    /**
     * removerElemento: unlink the first node holding `key`, moving the head
     * to its successor when it was the first node; report whether one was found.
     * The unlinked node is no longer part of the chain nor of `Repr`.
     */
    method Remove(key: string) returns (found: bool)
      requires Valid()
      modifies Repr
      ensures Valid() && Repr <= old(Repr)
      ensures found <==> key in old(Contents)
      ensures Contents == RemoveFirst(old(Contents), key)
      ensures !found ==> Contents == old(Contents)
      ensures !found ==> Nodes == old(Nodes) && Repr == old(Repr) && head == old(head)
      ensures |Contents| == if found then |old(Contents)| - 1 else |old(Contents)|
      ensures found ==> var i := IndexOf(old(Contents), key);
        Nodes == old(Nodes[..i] + Nodes[i + 1..]) && Repr == old(Repr) - {old(Nodes[i])}
      ensures found && old(Contents[0]) == key ==> head == old(head.next)
      ensures found && old(Contents[0]) != key ==> head == old(head)
    {
      if head == null {
        RemoveFirstAbsent(Contents, key);
        return false;
      }
      var aux := head;
      var prev: Node? := null;
      ghost var i := 0;
      while aux != null && aux.data != key
        invariant 0 <= i <= |Nodes|
        invariant aux == if i < |Nodes| then Nodes[i] else null
        invariant prev == if i == 0 then null else Nodes[i - 1]
        invariant forall j :: 0 <= j < i ==> Contents[j] != key
        decreases |Nodes| - i
      {
        prev := aux;
        aux := aux.next;
        i := i + 1;
      }
      if aux == null {
        RemoveFirstAbsent(Contents, key);
        return false;
      }
      assert IndexOf(Contents, key) == i;
      RemoveFirstIsSplice(Contents, key);
      ghost var ns, cs := Nodes, Contents;
      Unlink(prev, aux, i);
      SkipsIsSplice(Nodes, ns, i);
      SkipsIsSplice(Contents, cs, i);
      return true;
    }
  }
}
