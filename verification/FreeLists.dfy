/** The size-class free lists, with LIST_INSERT_HEAD and LIST_REMOVE as operations on sequences. */
module FreeLists {
  import opened SizeClass
  import opened Blocks
  import opened Elements

  ghost predicate NoDuplicates(l: seq<Elem>) {
    forall i, j :: 0 <= i < j < |l| ==> l[i] != l[j]
  }

  /** LIST_REMOVE: the list without an element, wherever it is linked in. */
  function Without(l: seq<Elem>, e: Elem): seq<Elem> {
    if l == [] then []
    else if l[0] == e then Without(l[1..], e)
    else [l[0]] + Without(l[1..], e)
  }

  lemma {:induction false} WithoutMember(l: seq<Elem>, e: Elem, x: Elem)
    ensures x in Without(l, e) <==> x in l && x != e
  {
    if l != [] {
      WithoutMember(l[1..], e, x);
      assert l == [l[0]] + l[1..];
    }
  }

  lemma {:induction false} WithoutUnique(l: seq<Elem>, e: Elem)
    requires NoDuplicates(l)
    ensures NoDuplicates(Without(l, e))
  {
    if l != [] {
      var rest := Without(l[1..], e);
      WithoutUnique(l[1..], e);
      WithoutMember(l[1..], e, l[0]);
      assert l[0] !in rest;
      assert NoDuplicates([l[0]] + rest);
    }
  }

  /** What LIST_REMOVE leaves of one list: the list cut around the element, in the same order. */
  ghost predicate Cut(l: seq<Elem>, r: seq<Elem>, e: Elem) {
    && (e !in l ==> r == l)
    && (forall i :: 0 <= i < |l| && l[i] == e ==> r == l[..i] + l[i + 1..])
  }

  lemma {:induction false} WithoutAbsent(l: seq<Elem>, e: Elem)
    requires e !in l
    ensures Without(l, e) == l
  {
    if l != [] {
      WithoutAbsent(l[1..], e);
      assert l == [l[0]] + l[1..];
    }
  }

  lemma {:induction false} WithoutAt(a: seq<Elem>, e: Elem, b: seq<Elem>)
    requires e !in a && e !in b
    ensures Without(a + [e] + b, e) == a + b
  {
    var l := a + [e] + b;
    if a == [] {
      assert l[1..] == b;
      WithoutAbsent(b, e);
      assert a + b == b;
    } else {
      assert l[1..] == a[1..] + [e] + b && l[0] == a[0];
      WithoutAt(a[1..], e, b);
      assert a + b == [a[0]] + (a[1..] + b);
    }
  }

  lemma {:induction false} WithoutCuts(l: seq<Elem>, e: Elem)
    requires NoDuplicates(l)
    ensures Cut(l, Without(l, e), e)
  {
    if e !in l {
      WithoutAbsent(l, e);
    }
    forall i | 0 <= i < |l| && l[i] == e ensures Without(l, e) == l[..i] + l[i + 1..] {
      assert l == l[..i] + [e] + l[i + 1..];
      WithoutAt(l[..i], e, l[i + 1..]);
    }
  }

  function Unlink(lists: seq<seq<Elem>>, e: Elem): (r: seq<seq<Elem>>)
    ensures |r| == |lists|
  {
    seq(|lists|, b requires 0 <= b < |lists| => Without(lists[b], e))
  }

  /** Removal from all lists: each is cut around the element if it has it, and otherwise unchanged. */
  ghost predicate CutFrom(lists: seq<seq<Elem>>, r: seq<seq<Elem>>, e: Elem) {
    |r| == |lists| && forall b :: 0 <= b < |lists| ==> Cut(lists[b], r[b], e)
  }

  lemma {:induction false} UnlinkCuts(lists: seq<seq<Elem>>, e: Elem)
    requires forall b :: 0 <= b < |lists| ==> NoDuplicates(lists[b])
    ensures CutFrom(lists, Unlink(lists, e), e)
  {
    forall b | 0 <= b < |lists| ensures Cut(lists[b], Unlink(lists, e)[b], e) {
      WithoutCuts(lists[b], e);
    }
  }

  /** Insertion at the head of list b: the element comes first, then the list as it was; no other list changes. */
  ghost predicate HeadOf(lists: seq<seq<Elem>>, r: seq<seq<Elem>>, b: nat, e: Elem) {
    && |r| == |lists| && b < |r| && |r[b]| > 0
    && r[b][0] == e && r[b][1..] == lists[b]
    && forall c :: 0 <= c < |lists| && c != b ==> r[c] == lists[c]
  }

  /** LIST_INSERT_HEAD on list b. */
  function PushFront(lists: seq<seq<Elem>>, b: nat, e: Elem): (r: seq<seq<Elem>>)
    requires b < |lists|
    ensures |r| == |lists|
  {
    lists[b := [e] + lists[b]]
  }

  /**
   Apart from the elements in `out`, which are on no list, an element is on a list exactly when it is free
   and its size selects that list; v gives the sizes and states of the elements.
   */
  ghost predicate Indexed(lists: seq<seq<Elem>>, elems: seq<Elem>, v: seq<Block>, out: set<Elem>)
    requires |v| == |elems|
  {
    && |lists| == RTE_HEAP_NUM_FREELISTS
    && (forall b, e :: 0 <= b < |lists| && e in lists[b] ==> e in elems && e !in out)
    && (forall b :: 0 <= b < |lists| ==> NoDuplicates(lists[b]))
    && (forall i, b :: 0 <= i < |elems| && 0 <= b < |lists| && elems[i] !in out ==>
          (elems[i] in lists[b] <==> !v[i].busy && FreeListIndex(v[i].size) == b))
  }

  /** Taking an element off its list. */
  lemma {:induction false} UnlinkIndexed(lists: seq<seq<Elem>>, elems: seq<Elem>, v: seq<Block>, out: set<Elem>,
      e: Elem)
    requires |v| == |elems| && Indexed(lists, elems, v, out)
    ensures Indexed(Unlink(lists, e), elems, v, out + {e})
  {
    var r := Unlink(lists, e);
    forall b | 0 <= b < |lists| ensures NoDuplicates(r[b]) {
      WithoutUnique(lists[b], e);
    }
    forall b, x | 0 <= b < |r| && x in r[b] ensures x in elems && x !in out + {e} {
      WithoutMember(lists[b], e, x);
    }
    forall i, b | 0 <= i < |elems| && 0 <= b < |r| && elems[i] !in out + {e}
      ensures elems[i] in r[b] <==> !v[i].busy && FreeListIndex(v[i].size) == b
    {
      WithoutMember(lists[b], e, elems[i]);
    }
  }

  /** Putting a free element that is on no list at the head of the list of its size. */
  lemma {:induction false} PushIndexed(lists: seq<seq<Elem>>, elems: seq<Elem>, v: seq<Block>, out: set<Elem>, k: nat)
    requires |v| == |elems| && Indexed(lists, elems, v, out) && Distinct(elems)
    requires k < |elems| && elems[k] in out && !v[k].busy
    ensures Indexed(PushFront(lists, FreeListIndex(v[k].size), elems[k]), elems, v, out - {elems[k]})
  {
    var b0, e := FreeListIndex(v[k].size), elems[k];
    var r := PushFront(lists, b0, e);
    assert r[b0] == [e] + lists[b0] && e !in lists[b0];
    forall i, b | 0 <= i < |elems| && 0 <= b < |r| && elems[i] !in out - {e}
      ensures elems[i] in r[b] <==> !v[i].busy && FreeListIndex(v[i].size) == b
    {
      if i == k {
        assert r[b0][0] == e;
        assert b != b0 ==> r[b] == lists[b];
      } else {
        assert elems[i] != e;
      }
    }
  }

  /** The blocks of elements on no list may change. */
  lemma {:induction false} UpdateIndexed(lists: seq<seq<Elem>>, elems: seq<Elem>, v: seq<Block>, v': seq<Block>,
      out: set<Elem>)
    requires |v| == |v'| == |elems| && Indexed(lists, elems, v, out)
    requires forall i :: 0 <= i < |elems| && elems[i] !in out ==> v'[i] == v[i]
    ensures Indexed(lists, elems, v', out)
  {
  }

  /** A busy element need not be set apart. */
  lemma {:induction false} BusyIndexed(lists: seq<seq<Elem>>, elems: seq<Elem>, v: seq<Block>, out: set<Elem>, k: nat)
    requires |v| == |elems| && Indexed(lists, elems, v, out) && Distinct(elems)
    requires k < |elems| && v[k].busy
    ensures Indexed(lists, elems, v, out - {elems[k]})
    ensures Indexed(lists, elems, v, out + {elems[k]})
  {
    forall i | 0 <= i < |elems| && i != k ensures elems[i] != elems[k] {
    }
  }

  /** An element new to the heap is on no list. */
  lemma {:induction false} InsertIndexed(lists: seq<seq<Elem>>, elems: seq<Elem>, v: seq<Block>, out: set<Elem>,
      m: nat, e: Elem, b: Block)
    requires |v| == |elems| && Indexed(lists, elems, v, out) && m <= |elems| && e !in elems
    ensures Indexed(lists, elems[..m] + [e] + elems[m..], v[..m] + [b] + v[m..], out + {e})
  {
    var w, u := elems[..m] + [e] + elems[m..], v[..m] + [b] + v[m..];
    InsertedAt(elems, m, e);
    forall i | 0 <= i < |w| && i != m
      ensures w[i] == elems[if i < m then i else i - 1] && u[i] == v[if i < m then i else i - 1]
    {
    }
    forall x | x in elems ensures x in w && x != e {
      var i :| 0 <= i < |elems| && elems[i] == x;
      assert w[if i < m then i else i + 1] == x;
    }
  }

  /** Dropping an element that is on no list. */
  lemma {:induction false} RemoveIndexed(lists: seq<seq<Elem>>, elems: seq<Elem>, v: seq<Block>, out: set<Elem>, m: nat)
    requires |v| == |elems| && Indexed(lists, elems, v, out) && m < |elems| && elems[m] in out && Distinct(elems)
    ensures Indexed(lists, elems[..m] + elems[m + 1..], v[..m] + v[m + 1..], out - {elems[m]})
  {
    var w, u := elems[..m] + elems[m + 1..], v[..m] + v[m + 1..];
    RemovedAt(elems, m);
    forall i | 0 <= i < |w|
      ensures w[i] == elems[if i < m then i else i + 1] && u[i] == v[if i < m then i else i + 1] && w[i] != elems[m]
    {
    }
    forall x | x in elems && x != elems[m] ensures x in w {
      var i :| 0 <= i < |elems| && elems[i] == x;
      assert w[if i < m then i else i - 1] == x;
    }
  }

  /** The lists after an element that is on none was cut in two, its high part becoming busy. */
  lemma {:induction false} AllocIndexed(lists: seq<seq<Elem>>, elems: seq<Elem>, v: seq<Block>, k: nat, start: nat,
      newElem: Elem)
    requires |v| == |elems| && Distinct(elems) && k < |elems| && newElem !in elems
    requires Indexed(lists, elems, v, {elems[k]}) && v[k].addr <= start <= v[k].End()
    ensures Indexed(lists, InsertAt(elems, k + 1, newElem), AllocBlock(v, k, start), {elems[k]})
  {
    var high := Block(start, v[k].End() - start, true);
    var list, u := InsertAt(elems, k + 1, newElem), v[..k + 1] + [high] + v[k + 1..];
    InsertIndexed(lists, elems, v, {elems[k]}, k + 1, newElem, high);
    InsertDistinct(elems, k + 1, newElem);
    InsertedAt(elems, k + 1, newElem);
    AllocBlockAt(v, k, start);
    assert {elems[k]} + {newElem} - {newElem} == {elems[k]};
    BusyIndexed(lists, list, u, {elems[k]} + {newElem}, k + 1);
    UpdateIndexed(lists, list, u, AllocBlock(v, k, start), {elems[k]});
  }

  /** The lists after two neighbours that are on none were joined. */
  lemma {:induction false} JoinIndexed(lists: seq<seq<Elem>>, elems: seq<Elem>, v: seq<Block>, i: nat)
    requires |v| == |elems| && Distinct(elems) && i + 1 < |elems|
    requires Indexed(lists, elems, v, {elems[i], elems[i + 1]})
    ensures Indexed(lists, elems[..i + 1] + elems[i + 2..], JoinNext(v, i), {elems[i]})
  {
    var list, u := elems[..i + 1] + elems[i + 2..], v[..i + 1] + v[i + 2..];
    RemoveIndexed(lists, elems, v, {elems[i], elems[i + 1]}, i + 1);
    assert {elems[i], elems[i + 1]} - {elems[i + 1]} == {elems[i]};
    RemovedAt(elems, i + 1);
    JoinNextAt(v, i);
    UpdateIndexed(lists, list, u, JoinNext(v, i), {elems[i]});
  }
}
