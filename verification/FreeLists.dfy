/**
 Doubly linked free lists whose links live in the block headers, seen as sequences.
 Address 0 is the null link.
 */
module FreeLists {

  /** The link fields of the kth block of list L. */
  ghost predicate Node(next: map<nat, nat>, prev: map<nat, nat>, L: seq<nat>, k: nat)
    requires k < |L|
  {
    && L[k] != 0 && L[k] in next && L[k] in prev
    && next[L[k]] == (if k + 1 < |L| then L[k + 1] else 0)
    && prev[L[k]] == (if k > 0 then L[k - 1] else 0)
  }

  ghost predicate NoDuplicates(L: seq<nat>) {
    forall k, l :: 0 <= k < l < |L| ==> L[k] != L[l]
  }

  /** Starting at head and following the links visits L, forwards and backwards. */
  ghost predicate Linked(next: map<nat, nat>, prev: map<nat, nat>, head: nat, L: seq<nat>) {
    && head == (if L == [] then 0 else L[0])
    && NoDuplicates(L)
    && forall k: nat :: k < |L| ==> Node(next, prev, L, k)
  }

  ghost function Without(L: seq<nat>, k: nat): seq<nat>
    requires k < |L|
  {
    L[..k] + L[k + 1..]
  }

  ghost function Replaced(L: seq<nat>, k: nat, n: nat): seq<nat>
    requires k < |L|
  {
    L[k := n]
  }

  /** The link fields after unlinking the kth block, and the new list head. */
  ghost predicate Unlinks(next: map<nat, nat>, prev: map<nat, nat>, head: nat,
                          next': map<nat, nat>, prev': map<nat, nat>, head': nat, L: seq<nat>, k: nat)
    requires Linked(next, prev, head, L) && k < |L|
  {
    assert Node(next, prev, L, k);
    && head' == (if k == 0 then next[L[k]] else head)
    && next' == (if k == 0 then next else next[L[k - 1] := next[L[k]]])
    && prev' == (if k + 1 < |L| then prev[L[k + 1] := prev[L[k]]] else prev)
  }

  lemma LinkedRemove(next: map<nat, nat>, prev: map<nat, nat>, head: nat,
                     next': map<nat, nat>, prev': map<nat, nat>, head': nat, L: seq<nat>, k: nat)
    requires Linked(next, prev, head, L) && k < |L|
    requires Unlinks(next, prev, head, next', prev', head', L, k)
    ensures Linked(next', prev', head', Without(L, k))
  {
    var L' := Without(L, k);
    assert Node(next, prev, L, k);
    forall j: nat | j < |L'|
      ensures Node(next', prev', L', j)
    {
      var i := if j < k then j else j + 1;
      assert Node(next, prev, L, i);
      if k > 0 && j == k {
        assert L'[j - 1] == L[k - 1];
      }
    }
  }

  lemma LinkedPush(next: map<nat, nat>, prev: map<nat, nat>, head: nat,
                   next': map<nat, nat>, prev': map<nat, nat>, L: seq<nat>, h: nat)
    requires Linked(next, prev, head, L) && h !in L && h != 0
    requires next' == next[h := head]
    requires prev' == (if head == 0 then prev[h := 0] else prev[h := 0][head := h])
    ensures Linked(next', prev', h, [h] + L)
  {
    var L' := [h] + L;
    forall j: nat | j < |L'|
      ensures Node(next', prev', L', j)
    {
      if j > 0 {
        assert Node(next, prev, L, j - 1);
        assert j > 1 ==> L'[j - 1] == L[j - 2];
        assert j + 1 < |L'| ==> L'[j + 1] == L[j];
      }
    }
  }

  /** Splitting a block puts n in its place. */
  lemma LinkedReplace(next: map<nat, nat>, prev: map<nat, nat>, head: nat,
                      next': map<nat, nat>, prev': map<nat, nat>, head': nat, L: seq<nat>, k: nat, n: nat)
    requires Linked(next, prev, head, L) && k < |L| && n !in L && n != 0 && L[k] in next && L[k] in prev
    requires next' == (if k == 0 then next[n := next[L[k]]] else next[n := next[L[k]]][L[k - 1] := n])
    requires prev' == (if k + 1 < |L| then prev[n := prev[L[k]]][L[k + 1] := n] else prev[n := prev[L[k]]])
    requires head' == (if k == 0 then n else head)
    ensures Linked(next', prev', head', Replaced(L, k, n))
  {
    var L' := Replaced(L, k, n);
    assert Node(next, prev, L, k);
    forall j: nat | j < |L'|
      ensures Node(next', prev', L', j)
    {
      assert Node(next, prev, L, j);
    }
  }

  /** A list does not depend on the links of blocks outside it. */
  lemma LinkedFrame(next: map<nat, nat>, prev: map<nat, nat>, next': map<nat, nat>, prev': map<nat, nat>, head: nat,
                    L: seq<nat>)
    requires Linked(next, prev, head, L)
    requires forall a :: a in L && a in next && a in prev ==>
               a in next' && a in prev' && next'[a] == next[a] && prev'[a] == prev[a]
    ensures Linked(next', prev', head, L)
  {
    forall j: nat | j < |L|
      ensures Node(next', prev', L, j)
    {
      assert Node(next, prev, L, j);
    }
  }

  // ---------- byte counts

  ghost function Sum(sz: map<nat, nat>, L: seq<nat>): nat {
    if L == [] then 0
    else (if L[0] in sz then sz[L[0]] else 0) + Sum(sz, L[1..])
  }

  lemma {:induction false} SumConcat(sz: map<nat, nat>, A: seq<nat>, B: seq<nat>)
    ensures Sum(sz, A + B) == Sum(sz, A) + Sum(sz, B)
  {
    if A == [] {
      assert A + B == B;
    } else {
      assert (A + B)[1..] == A[1..] + B;
      SumConcat(sz, A[1..], B);
    }
  }

  lemma SumWithout(sz: map<nat, nat>, L: seq<nat>, k: nat)
    requires k < |L| && L[k] in sz
    ensures Sum(sz, L) == Sum(sz, Without(L, k)) + sz[L[k]]
  {
    assert L == L[..k] + ([L[k]] + L[k + 1..]);
    SumConcat(sz, L[..k], [L[k]] + L[k + 1..]);
    SumConcat(sz, L[..k], L[k + 1..]);
  }

  lemma {:induction false} SumFrame(sz: map<nat, nat>, sz': map<nat, nat>, L: seq<nat>)
    requires forall a :: a in L ==> a in sz && a in sz' && sz[a] == sz'[a]
    ensures Sum(sz, L) == Sum(sz', L)
  {
    if L != [] {
      SumFrame(sz, sz', L[1..]);
    }
  }

  ghost function Total(counts: seq<nat>): nat {
    if counts == [] then 0 else counts[0] + Total(counts[1..])
  }

  lemma {:induction false} TotalUpdate(counts: seq<nat>, i: nat, v: nat)
    requires i < |counts|
    ensures Total(counts[i := v]) == Total(counts) - counts[i] + v
  {
    if i == 0 {
      assert counts[i := v][1..] == counts[1..];
    } else {
      assert counts[i := v][1..] == counts[1..][i - 1 := v];
      TotalUpdate(counts[1..], i - 1, v);
    }
  }

  lemma {:induction false} TotalSnoc(counts: seq<nat>, v: nat)
    ensures Total(counts + [v]) == Total(counts) + v
  {
    if counts == [] {
      assert counts + [v] == [v];
    } else {
      assert (counts + [v])[1..] == counts[1..] + [v];
      TotalSnoc(counts[1..], v);
    }
  }

  lemma {:induction false} TotalZero(counts: seq<nat>)
    requires forall i :: 0 <= i < |counts| ==> counts[i] == 0
    ensures Total(counts) == 0
  {
    if counts != [] {
      TotalZero(counts[1..]);
    }
  }

  // ---------- all the lists together

  /** The links, list heads and byte counts, with the lists as sequences and, for each listed
      block, the index of its list. */
  datatype Links = Links(next: map<nat, nat>, prev: map<nat, nat>, head: seq<nat>, bytes: seq<nat>,
                         lists: seq<seq<nat>>, on: map<nat, nat>)

  ghost predicate Members(lists: seq<seq<nat>>, on: map<nat, nat>) {
    && (forall i: int, a: nat :: 0 <= i < |lists| && a in lists[i] ==> a in on && on[a] == i)
    && (forall a :: a in on ==> on[a] < |lists| && a in lists[on[a]])
  }

  /** Every list is well linked, the lists share no block, and each byte count is the sum of
      its list. */
  ghost predicate LinksOk(sz: map<nat, nat>, f: Links) {
    && |f.head| == |f.bytes| == |f.lists|
    && (forall i :: 0 <= i < |f.lists| ==> Linked(f.next, f.prev, f.head[i], f.lists[i]))
    && Members(f.lists, f.on)
    && f.on.Keys <= sz.Keys
    && (forall i :: 0 <= i < |f.lists| ==> f.bytes[i] == Sum(sz, f.lists[i]))
  }

  lemma WithoutMembers(L: seq<nat>, k: nat)
    requires k < |L| && NoDuplicates(L)
    ensures forall a :: a in Without(L, k) <==> a in L && a != L[k]
  {
    forall a | a in L && a != L[k]
      ensures a in Without(L, k)
    {
      var j :| 0 <= j < |L| && L[j] == a;
      assert Without(L, k)[if j < k then j else j - 1] == a;
    }
  }

  /** The list that replaces list i may change only the links of its own blocks. */
  ghost predicate OnlyList(f: Links, next': map<nat, nat>, prev': map<nat, nat>, i: nat) {
    forall a :: a in f.on && f.on[a] != i && a in f.next && a in f.prev ==>
      a in next' && a in prev' && next'[a] == f.next[a] && prev'[a] == f.prev[a]
  }

  /** Replacing list i, with the links of its blocks, keeps everything else in order. */
  lemma ListChanged(sz: map<nat, nat>, f: Links, f': Links, i: nat)
    requires LinksOk(sz, f) && i < |f.lists|
    requires OnlyList(f, f'.next, f'.prev, i)
    requires |f'.head| == |f'.bytes| == |f'.lists| == |f.lists|
    requires f'.head == f.head[i := f'.head[i]] && f'.bytes == f.bytes[i := f'.bytes[i]]
    requires f'.lists == f.lists[i := f'.lists[i]]
    requires Linked(f'.next, f'.prev, f'.head[i], f'.lists[i]) && f'.bytes[i] == Sum(sz, f'.lists[i])
    requires Members(f'.lists, f'.on) && f'.on.Keys <= sz.Keys
    ensures LinksOk(sz, f')
  {
    LinksResized(sz, f, f', i);
  }

  lemma MembersRemove(lists: seq<seq<nat>>, on: map<nat, nat>, i: nat, k: nat)
    requires Members(lists, on) && i < |lists| && k < |lists[i]| && NoDuplicates(lists[i])
    ensures Members(lists[i := Without(lists[i], k)], on - {lists[i][k]})
  {
    var h: nat := lists[i][k];
    var lists', on' := lists[i := Without(lists[i], k)], on - {h};
    assert h in lists[i] && on[h] == i;
    WithoutMembers(lists[i], k);
    forall j: int, a: nat | 0 <= j < |lists'| && a in lists'[j]
      ensures a in on' && on'[a] == j
    {
      assert j == i ==> a in Without(lists[i], k);
      assert a in lists[j] && on[a] == j && a != h;
    }
  }

  lemma MembersPush(lists: seq<seq<nat>>, on: map<nat, nat>, i: nat, h: nat)
    requires Members(lists, on) && i < |lists| && h !in on
    ensures Members(lists[i := [h] + lists[i]], on[h := i])
  {
    var lists', on' := lists[i := [h] + lists[i]], on[h := i];
    forall a | a in on'
      ensures on'[a] < |lists'| && a in lists'[on'[a]]
    {
      if a != h {
        assert a in lists[on[a]];
      } else {
        assert lists'[i][0] == h;
      }
    }
  }

  lemma MembersReplace(lists: seq<seq<nat>>, on: map<nat, nat>, i: nat, k: nat, n: nat)
    requires Members(lists, on) && i < |lists| && k < |lists[i]| && NoDuplicates(lists[i]) && n !in on
    ensures Members(lists[i := Replaced(lists[i], k, n)], (on - {lists[i][k]})[n := i])
  {
    var h: nat := lists[i][k];
    var lists', on' := lists[i := Replaced(lists[i], k, n)], (on - {h})[n := i];
    assert h in lists[i] && on[h] == i;
    forall j: int, a: nat | 0 <= j < |lists'| && a in lists'[j]
      ensures a in on' && on'[a] == j
    {
      if j == i {
        var l :| 0 <= l < |lists'[i]| && lists'[i][l] == a;
        if l != k {
          assert a == lists[i][l] && lists[i][l] != lists[i][k];
          assert a in lists[i] && on[a] == i && a != h;
        }
      } else {
        assert a in lists[j] && on[a] == j && a != h;
      }
    }
    forall a | a in on'
      ensures on'[a] < |lists'| && a in lists'[on'[a]]
    {
      if a == n {
        assert lists'[i][k] == n;
      } else if on[a] == i {
        var j :| 0 <= j < |lists[i]| && lists[i][j] == a;
        assert lists'[i][j] == a;
      }
    }
  }

  // ---------- the three link updates

  /** Unlinking the kth block of list i. */
  ghost function Removed(sz: map<nat, nat>, f: Links, i: nat, k: nat): Links
    requires LinksOk(sz, f) && i < |f.lists| && k < |f.lists[i]|
  {
    var h := f.lists[i][k];
    assert Node(f.next, f.prev, f.lists[i], k);
    var n, p := f.next[h], f.prev[h];
    assert h in f.lists[i];
    SumWithout(sz, f.lists[i], k);
    Links(if p == 0 then f.next else f.next[p := n],
          if n == 0 then f.prev else f.prev[n := p],
          if p == 0 then f.head[i := n] else f.head,
          f.bytes[i := f.bytes[i] - sz[h]],
          f.lists[i := Without(f.lists[i], k)],
          f.on - {h})
  }

  lemma RemovedOk(sz: map<nat, nat>, f: Links, i: nat, k: nat)
    requires LinksOk(sz, f) && i < |f.lists| && k < |f.lists[i]|
    ensures LinksOk(sz, Removed(sz, f, i, k))
  {
    var L, f' := f.lists[i], Removed(sz, f, i, k);
    assert Node(f.next, f.prev, L, k);
    assert k > 0 ==> Node(f.next, f.prev, L, k - 1) && L[k - 1] in L;
    assert k + 1 < |L| ==> Node(f.next, f.prev, L, k + 1) && L[k + 1] in L;
    LinkedRemove(f.next, f.prev, f.head[i], f'.next, f'.prev, f'.head[i], L, k);
    SumWithout(sz, L, k);
    MembersRemove(f.lists, f.on, i, k);
    ListChanged(sz, f, f', i);
  }

  lemma LinksShape(sz: map<nat, nat>, f: Links)
    requires LinksOk(sz, f)
    ensures |f.lists| == |f.bytes| == |f.head| && f.on.Keys <= sz.Keys
  {
  }

  /** Two length maps agree on all listed blocks. */
  ghost predicate Agree(sz: map<nat, nat>, sz': map<nat, nat>, on: map<nat, nat>) {
    forall a :: a in on ==> a in sz && a in sz' && sz'[a] == sz[a]
  }

  /** Lengths of blocks that are on no list may change freely. */
  lemma LinksAgree(sz: map<nat, nat>, f: Links, sz': map<nat, nat>)
    requires LinksOk(sz, f) && Agree(sz, sz', f.on)
    ensures LinksOk(sz', f)
  {
    forall i | 0 <= i < |f.lists|
      ensures f.bytes[i] == Sum(sz', f.lists[i])
    {
      assert forall a :: a in f.lists[i] ==> a in f.on;
      SumFrame(sz, sz', f.lists[i]);
    }
  }

  /** Walking a list by its links: the kth block and what follows it. */
  lemma ListPosition(sz: map<nat, nat>, f: Links, i: nat, k: nat)
    requires LinksOk(sz, f) && i < |f.lists| && k <= |f.lists[i]|
    ensures k == 0 ==> f.head[i] == (if f.lists[i] == [] then 0 else f.lists[i][0])
    ensures k < |f.lists[i]| ==> f.lists[i][k] != 0 && f.lists[i][k] in f.on && f.on[f.lists[i][k]] == i
    ensures k < |f.lists[i]| ==> f.lists[i][k] in f.next && f.lists[i][k] in f.prev && f.lists[i][k] in sz
    ensures k < |f.lists[i]| ==> f.next[f.lists[i][k]] == (if k + 1 < |f.lists[i]| then f.lists[i][k + 1] else 0)
    ensures k < |f.lists[i]| ==> f.prev[f.lists[i][k]] == (if k > 0 then f.lists[i][k - 1] else 0)
    ensures k + 1 < |f.lists[i]| ==> f.lists[i][k + 1] in sz
  {
    if k < |f.lists[i]| {
      assert Node(f.next, f.prev, f.lists[i], k);
      assert f.lists[i][k] in f.lists[i];
      if k + 1 < |f.lists[i]| {
        assert f.lists[i][k + 1] in f.lists[i];
      }
    }
  }

  /** A listed block has link fields and is counted. */
  lemma Listed(sz: map<nat, nat>, f: Links, h: nat) returns (k: nat)
    requires LinksOk(sz, f) && h in f.on
    ensures f.on[h] < |f.lists| == |f.bytes| == |f.head| && k < |f.lists[f.on[h]]| && f.lists[f.on[h]][k] == h
    ensures h in f.next && h in f.prev && h in sz && h != 0
    ensures f.bytes[f.on[h]] >= sz[h]
  {
    var i := f.on[h];
    k :| k < |f.lists[i]| && f.lists[i][k] == h;
    assert Node(f.next, f.prev, f.lists[i], k);
    SumWithout(sz, f.lists[i], k);
  }

  /** Putting h at the front of list i. */
  ghost function Pushed(sz: map<nat, nat>, f: Links, i: nat, h: nat): Links
    requires LinksOk(sz, f) && i < |f.lists| && h in sz
  {
    var second := f.head[i];
    Links(f.next[h := second],
          if second == 0 then f.prev[h := 0] else f.prev[h := 0][second := h],
          f.head[i := h],
          f.bytes[i := f.bytes[i] + sz[h]],
          f.lists[i := [h] + f.lists[i]],
          f.on[h := i])
  }

  lemma PushedOk(sz: map<nat, nat>, f: Links, i: nat, h: nat)
    requires LinksOk(sz, f) && i < |f.lists| && h in sz && h !in f.on && h != 0
    ensures LinksOk(sz, Pushed(sz, f, i, h))
  {
    var L, f' := f.lists[i], Pushed(sz, f, i, h);
    assert L != [] ==> Node(f.next, f.prev, L, 0) && L[0] in L;
    LinkedPush(f.next, f.prev, f.head[i], f'.next, f'.prev, L, h);
    SumConcat(sz, [h], L);
    MembersPush(f.lists, f.on, i, h);
    ListChanged(sz, f, f', i);
  }

  /** Putting n, the rest of the kth block of list i after its first part of length m, in that
      block's place; sz and sz' are the lengths before and after. */
  ghost function Split(sz: map<nat, nat>, f: Links, i: nat, k: nat, n: nat, m: nat): Links
    requires LinksOk(sz, f) && i < |f.lists| && k < |f.lists[i]|
    requires f.lists[i][k] in sz && m <= sz[f.lists[i][k]]
  {
    var h := f.lists[i][k];
    assert Node(f.next, f.prev, f.lists[i], k);
    SumWithout(sz, f.lists[i], k);
    var nx, pv := f.next[h], f.prev[h];
    Links(if pv == 0 then f.next[n := nx] else f.next[n := nx][pv := n],
          if nx == 0 then f.prev[n := pv] else f.prev[n := pv][nx := n],
          if pv == 0 then f.head[i := n] else f.head,
          f.bytes[i := f.bytes[i] - m],
          f.lists[i := Replaced(f.lists[i], k, n)],
          (f.on - {h})[n := i])
  }

  lemma SplitOk(sz: map<nat, nat>, f: Links, i: nat, k: nat, n: nat, m: nat)
    requires LinksOk(sz, f) && i < |f.lists| && k < |f.lists[i]|
    requires f.lists[i][k] in sz && m < sz[f.lists[i][k]] && n !in sz && n != 0
    ensures LinksOk(sz[f.lists[i][k] := m][n := sz[f.lists[i][k]] - m], Split(sz, f, i, k, n, m))
  {
    hide Linked, OnlyList, Sum, NoDuplicates;
    var L, h, f' := f.lists[i], f.lists[i][k], Split(sz, f, i, k, n, m);
    SplitLinked(sz, f, i, k, n, m);
    OnceListed(sz, f, i);
    MembersReplace(f.lists, f.on, i, k, n);
    SplitSums(sz, f, i, k, n, m);
    LinksResized(sz[h := m][n := sz[h] - m], f, f', i);
  }

  lemma OnceListed(sz: map<nat, nat>, f: Links, i: nat)
    requires LinksOk(sz, f) && i < |f.lists|
    ensures NoDuplicates(f.lists[i])
  {
    assert Linked(f.next, f.prev, f.head[i], f.lists[i]);
  }

  lemma SplitLinked(sz: map<nat, nat>, f: Links, i: nat, k: nat, n: nat, m: nat)
    requires LinksOk(sz, f) && i < |f.lists| && k < |f.lists[i]|
    requires f.lists[i][k] in sz && m < sz[f.lists[i][k]] && n !in sz && n != 0
    ensures var f' := Split(sz, f, i, k, n, m);
            Linked(f'.next, f'.prev, f'.head[i], f'.lists[i]) && OnlyList(f, f'.next, f'.prev, i)
  {
    var L, f' := f.lists[i], Split(sz, f, i, k, n, m);
    assert Node(f.next, f.prev, L, k);
    assert k > 0 ==> Node(f.next, f.prev, L, k - 1) && L[k - 1] in L;
    assert k + 1 < |L| ==> Node(f.next, f.prev, L, k + 1) && L[k + 1] in L;
    assert n !in f.on;
    LinkedReplace(f.next, f.prev, f.head[i], f'.next, f'.prev, f'.head[i], L, k, n);
  }

  lemma SplitSums(sz: map<nat, nat>, f: Links, i: nat, k: nat, n: nat, m: nat)
    requires LinksOk(sz, f) && i < |f.lists| && k < |f.lists[i]|
    requires f.lists[i][k] in sz && m < sz[f.lists[i][k]] && n !in sz && n != 0
    ensures var sz' := sz[f.lists[i][k] := m][n := sz[f.lists[i][k]] - m];
            && Sum(sz', Replaced(f.lists[i], k, n)) == f.bytes[i] - m
            && forall j :: 0 <= j < |f.lists| && j != i ==> f.bytes[j] == Sum(sz', f.lists[j])
  {
    var L, h := f.lists[i], f.lists[i][k];
    var sz' := sz[h := m][n := sz[h] - m];
    assert h in L && f.on[h] == i;
    SplitSum(sz, L, k, n, m);
    forall j | 0 <= j < |f.lists| && j != i
      ensures f.bytes[j] == Sum(sz', f.lists[j])
    {
      forall a | a in f.lists[j]
        ensures a in sz && a in sz' && sz[a] == sz'[a]
      {
        assert a in f.on && f.on[a] == j;
      }
      SumFrame(sz, sz', f.lists[j]);
    }
  }

  lemma SplitSum(sz: map<nat, nat>, L: seq<nat>, k: nat, n: nat, m: nat)
    requires k < |L| && NoDuplicates(L) && (forall a :: a in L ==> a in sz) && L[k] in sz && m < sz[L[k]] && n !in sz
    ensures Sum(sz[L[k] := m][n := sz[L[k]] - m], Replaced(L, k, n)) + m == Sum(sz, L)
  {
    var sz' := sz[L[k] := m][n := sz[L[k]] - m];
    SumWithout(sz, L, k);
    SumWithout(sz', Replaced(L, k, n), k);
    assert Without(Replaced(L, k, n), k) == Without(L, k);
    WithoutMembers(L, k);
    SumFrame(sz, sz', Without(L, k));
  }

  lemma OtherListSame(f: Links, f': Links, i: nat, j: nat)
    requires j < |f.lists| == |f.head| && j != i && Members(f.lists, f.on) && OnlyList(f, f'.next, f'.prev, i)
    requires Linked(f.next, f.prev, f.head[j], f.lists[j])
    ensures Linked(f'.next, f'.prev, f.head[j], f.lists[j])
  {
    LinkedFrame(f.next, f.prev, f'.next, f'.prev, f.head[j], f.lists[j]);
  }

  /** As ListChanged, when the byte counts are already known for the new lengths. */
  lemma LinksResized(sz': map<nat, nat>, f: Links, f': Links, i: nat)
    requires i < |f.lists| && Members(f.lists, f.on)
    requires forall j :: 0 <= j < |f.lists| && j < |f.head| ==> Linked(f.next, f.prev, f.head[j], f.lists[j])
    requires OnlyList(f, f'.next, f'.prev, i)
    requires |f.head| == |f.bytes| == |f'.head| == |f'.bytes| == |f'.lists| == |f.lists|
    requires f'.head == f.head[i := f'.head[i]] && f'.lists == f.lists[i := f'.lists[i]]
    requires Linked(f'.next, f'.prev, f'.head[i], f'.lists[i])
    requires Members(f'.lists, f'.on) && f'.on.Keys <= sz'.Keys
    requires forall j :: 0 <= j < |f.lists| ==> f'.bytes[j] == Sum(sz', f'.lists[j])
    ensures LinksOk(sz', f')
  {
    hide Linked, Members, OnlyList, Sum;
    forall j | 0 <= j < |f.lists|
      ensures Linked(f'.next, f'.prev, f'.head[j], f'.lists[j])
    {
      if j != i {
        OtherListSame(f, f', i, j);
      }
    }
  }
}
