/**
 The chained hash tables of tool/gec/backend/c/boehm_gc/finalize.c, as values.  A bucket's chain is
 the sequence of its entries in chain order; NULL is the table without buckets.
 */
module HashChains {

  datatype Entry<V> = Entry(key: nat, value: V)

  type Chain<V> = seq<Entry<V>>

  type Buckets<V> = seq<Chain<V>>

  /** `hash(key, log)` is HASH2. */
  type Hash = (nat, nat) -> nat

  function Power2(n: nat): (r: nat)
    ensures r > 0
  {
    if n == 0 then 1 else 2 * Power2(n - 1)
  }

  ghost predicate GoodHash(hash: Hash) {
    forall k: nat, n: nat :: hash(k, n) < Power2(n)
  }

  /** Every entry is in the bucket its hash names. */
  ghost predicate Placed<V(!new)>(hash: Hash, log: nat, b: Buckets<V>) {
    forall i: nat, e :: i < |b| && e in b[i] ==> hash(e.key, log) == i
  }

  /** No key occurs twice in a chain. */
  predicate Distinct<V>(c: Chain<V>) {
    forall j: nat, j': nat :: j < j' < |c| ==> c[j].key != c[j'].key
  }

  ghost predicate AllDistinct<V(!new)>(b: Buckets<V>) {
    forall i: nat :: i < |b| ==> Distinct(b[i])
  }

  ghost predicate Good<V(!new)>(hash: Hash, log: nat, b: Buckets<V>) {
    Placed(hash, log, b) && AllDistinct(b) && (b == [] || |b| == Power2(log))
  }

  /** e is an entry of the table. */
  ghost predicate Holds<V(!new)>(b: Buckets<V>, e: Entry<V>) {
    exists i: nat :: i < |b| && e in b[i]
  }

  ghost function ChainMap<V>(c: Chain<V>): map<nat, V> {
    if c == [] then map[] else ChainMap(c[1..])[c[0].key := c[0].value]
  }

  /** The table as a finite map. */
  ghost function Contents<V>(b: Buckets<V>): map<nat, V> {
    if b == [] then map[] else Contents(b[..|b| - 1]) + ChainMap(b[|b| - 1])
  }

  /** The number of entries. */
  ghost function Size<V>(b: Buckets<V>): nat {
    if b == [] then 0 else Size(b[..|b| - 1]) + |b[|b| - 1]|
  }

  predicate Maps<V(==)>(m: map<nat, V>, e: Entry<V>) {
    e.key in m && m[e.key] == e.value
  }

  /** The table's entries are exactly m's. */
  ghost predicate Represents<V(!new)>(b: Buckets<V>, m: map<nat, V>) {
    forall e: Entry<V> :: Holds(b, e) <==> Maps(m, e)
  }

  // ---------- a chain, and then a table, is a map

  lemma {:induction false} ChainIsMap<V(!new)>(c: Chain<V>)
    requires Distinct(c)
    ensures forall e: Entry<V> :: e in c <==> Maps(ChainMap(c), e)
    ensures |ChainMap(c)| == |c|
  {
    if c != [] {
      var m, k := ChainMap(c[1..]), c[0].key;
      ChainIsMap(c[1..]);
      assert k !in m by {
        if k in m { NotTwice(c, Entry(k, m[k])); }
      }
      assert m[k := c[0].value].Keys == m.Keys + {k};
      assert |m[k := c[0].value].Keys| == |m.Keys| + 1;
      forall e: Entry<V> ensures e in c <==> Maps(ChainMap(c), e) {
        assert e in c <==> e == c[0] || e in c[1..];
      }
    }
  }

  lemma NotTwice<V>(c: Chain<V>, e: Entry<V>)
    requires Distinct(c) && c != [] && e in c[1..]
    ensures e.key != c[0].key
  {
    var j :| 0 <= j < |c[1..]| && c[1..][j] == e;
    assert c[j + 1] == e;
  }

  lemma {:induction false} TableIsMap<V(!new)>(hash: Hash, log: nat, b: Buckets<V>)
    requires Placed(hash, log, b) && AllDistinct(b)
    ensures Represents(b, Contents(b)) && |Contents(b)| == Size(b)
  {
    if b != [] {
      var n := |b| - 1;
      var rest, c := b[..n], b[n];
      TableIsMap(hash, log, rest);
      ChainIsMap(c);
      var m, m' := Contents(rest), ChainMap(c);
      assert m.Keys !! m'.Keys by { ApartFromLast(hash, log, b); }
      assert (m + m').Keys == m.Keys + m'.Keys;
      forall e: Entry<V> ensures Holds(b, e) <==> Maps(m + m', e) {
        HoldsLast(b, e);
      }
      assert |(m + m').Keys| == |m.Keys| + |m'.Keys|;
    }
  }

  lemma HoldsLast<V(!new)>(b: Buckets<V>, e: Entry<V>)
    requires b != []
    ensures Holds(b, e) <==> Holds(b[..|b| - 1], e) || e in b[|b| - 1]
  {
    var rest := b[..|b| - 1];
    if Holds(rest, e) {
      var i: nat :| i < |rest| && e in rest[i];
      assert e in b[i];
    }
    if Holds(b, e) && e !in b[|b| - 1] {
      var i: nat :| i < |b| && e in b[i];
      assert e in rest[i];
    }
  }

  lemma ApartFromLast<V(!new)>(hash: Hash, log: nat, b: Buckets<V>)
    requires b != [] && Placed(hash, log, b) && AllDistinct(b)
    requires Represents(b[..|b| - 1], Contents(b[..|b| - 1]))
    ensures Contents(b[..|b| - 1]).Keys !! ChainMap(b[|b| - 1]).Keys
  {
    var rest, c := b[..|b| - 1], b[|b| - 1];
    ChainIsMap(c);
    forall k | k in Contents(rest) && k in ChainMap(c) ensures false {
      var e, e' := Entry(k, Contents(rest)[k]), Entry(k, ChainMap(c)[k]);
      assert Maps(Contents(rest), e) && Maps(ChainMap(c), e');
      assert Holds(rest, e) && e' in c;
      PlacedBelow(hash, log, b, |b| - 1, e);
    }
  }

  lemma PlacedBelow<V(!new)>(hash: Hash, log: nat, b: Buckets<V>, n: nat, e: Entry<V>)
    requires n <= |b| && Placed(hash, log, b) && Holds(b[..n], e)
    ensures hash(e.key, log) < n
  {
    var i: nat :| i < n && e in b[..n][i];
    assert e in b[i];
  }

  /** A table represents one map only. */
  lemma RepresentsOne<V(!new)>(hash: Hash, log: nat, b: Buckets<V>, m: map<nat, V>)
    requires Placed(hash, log, b) && AllDistinct(b) && Represents(b, m)
    ensures Contents(b) == m
  {
    TableIsMap(hash, log, b);
    var m' := Contents(b);
    forall k | k in m
      ensures k in m' && m'[k] == m[k]
    {
      assert Maps(m, Entry(k, m[k]));
      assert Holds(b, Entry(k, m[k]));
    }
    forall k | k in m' ensures k in m { assert Maps(m', Entry(k, m'[k])); assert Holds(b, Entry(k, m'[k])); }
  }

  // ---------- one bucket replaced

  lemma {:induction false} SizeReplaced<V>(b: Buckets<V>, i: nat, c: Chain<V>)
    requires i < |b|
    ensures Size(b[i := c]) == Size(b) - |b[i]| + |c|
  {
    var n := |b| - 1;
    if i < n {
      SizeReplaced(b[..n], i, c);
      assert b[i := c][..n] == b[..n][i := c];
    } else {
      assert b[i := c][..n] == b[..n];
    }
  }

  lemma HoldsReplaced<V(!new)>(hash: Hash, log: nat, b: Buckets<V>, i: nat, c: Chain<V>, e: Entry<V>)
    requires i < |b| && Placed(hash, log, b) && forall x :: x in c ==> hash(x.key, log) == i
    ensures Holds(b[i := c], e) <==> if hash(e.key, log) == i then e in c else Holds(b, e)
  {
    var b' := b[i := c];
    if Holds(b', e) {
      var j: nat :| j < |b'| && e in b'[j];
      assert j != i ==> e in b[j];
    }
    if Holds(b, e) && hash(e.key, log) != i {
      var j: nat :| j < |b| && e in b[j];
      assert e in b'[j];
    }
    if e in c { assert e in b'[i]; }
  }

  /** Which entries a bucket can hold. */
  lemma HoldsHere<V(!new)>(hash: Hash, log: nat, b: Buckets<V>, e: Entry<V>)
    requires hash(e.key, log) < |b| && Placed(hash, log, b)
    ensures Holds(b, e) <==> e in b[hash(e.key, log)]
  {
  }

  /** What replacing one chain does to the map. */
  lemma ReplacedIs<V(!new)>(hash: Hash, log: nat, b: Buckets<V>, i: nat, c: Chain<V>, m: map<nat, V>)
    requires i < |b| && Good(hash, log, b) && Distinct(c) && forall e :: e in c ==> hash(e.key, log) == i
    requires forall e: Entry<V> :: Maps(m, e) <==> if hash(e.key, log) == i then e in c else Maps(Contents(b), e)
    ensures Good(hash, log, b[i := c]) && Contents(b[i := c]) == m && Size(b[i := c]) == Size(b) - |b[i]| + |c|
  {
    var b' := b[i := c];
    TableIsMap(hash, log, b);
    SizeReplaced(b, i, c);
    forall j: nat, e: Entry<V> | j < |b'| && e in b'[j] ensures hash(e.key, log) == j { assert j != i ==> e in b[j]; }
    forall j: nat | j < |b'| ensures Distinct(b'[j]) { assert j != i ==> Distinct(b[j]); }
    forall e: Entry<V> ensures Holds(b', e) <==> Maps(m, e) { HoldsReplaced(hash, log, b, i, c, e); }
    RepresentsOne(hash, log, b', m);
  }

  /** An entry of a bucket's chain is an entry of the map and the other way round. */
  lemma BucketIs<V(!new)>(hash: Hash, log: nat, b: Buckets<V>, i: nat)
    requires i < |b| && Good(hash, log, b)
    ensures Distinct(b[i]) && forall e :: e in b[i] ==> hash(e.key, log) == i
    ensures forall e: Entry<V> :: hash(e.key, log) == i ==> (Maps(Contents(b), e) <==> e in b[i])
  {
    TableIsMap(hash, log, b);
    assert Distinct(b[i]);
    forall e: Entry<V> | hash(e.key, log) == i
      ensures Maps(Contents(b), e) <==> e in b[i]
    {
      HoldsHere(hash, log, b, e);
    }
  }

  /** The key is in the map exactly if its bucket's chain has it. */
  lemma Looked<V(!new)>(hash: Hash, log: nat, b: Buckets<V>, key: nat)
    requires Good(hash, log, b) && b != [] && GoodHash(hash)
    ensures hash(key, log) < |b|
    ensures key in Contents(b) <==> exists j: nat :: j < |b[hash(key, log)]| && b[hash(key, log)][j].key == key
    ensures forall j: nat :: j < |b[hash(key, log)]| && b[hash(key, log)][j].key == key
                             ==> Maps(Contents(b), b[hash(key, log)][j])
  {
    var i, m := hash(key, log), Contents(b);
    BucketIs(hash, log, b, i);
    forall j: nat | j < |b[i]| && b[i][j].key == key ensures Maps(m, b[i][j]) { assert b[i][j] in b[i]; }
    if key in m { assert Maps(m, Entry(key, m[key])); }
  }

  lemma Prepended<V(!new)>(hash: Hash, log: nat, b: Buckets<V>, e: Entry<V>)
    requires Good(hash, log, b) && b != [] && GoodHash(hash) && e.key !in Contents(b)
    ensures hash(e.key, log) < |b|
    ensures var b' := b[hash(e.key, log) := [e] + b[hash(e.key, log)]];
            Good(hash, log, b') && Contents(b') == Contents(b)[e.key := e.value] && Size(b') == Size(b) + 1
  {
    hide Good;
    var i := hash(e.key, log);
    Looked(hash, log, b, e.key);
    BucketIs(hash, log, b, i);
    var m := Contents(b)[e.key := e.value];
    assert forall x: Entry<V> :: Maps(m, x) <==> x == e || (Maps(Contents(b), x) && x.key != e.key);
    assert forall x: Entry<V> :: Maps(Contents(b), x) ==> x.key != e.key;
    ReplacedIs(hash, log, b, i, [e] + b[i], Contents(b)[e.key := e.value]);
  }

  lemma Removed<V(!new)>(hash: Hash, log: nat, b: Buckets<V>, i: nat, j: nat)
    requires Good(hash, log, b) && i < |b| && j < |b[i]|
    ensures var b' := b[i := b[i][..j] + b[i][j + 1..]];
            Good(hash, log, b') && Contents(b') == Contents(b) - {b[i][j].key} && Size(b') == Size(b) - 1
  {
    hide Good;
    BucketIs(hash, log, b, i);
    var c, key := b[i], b[i][j].key;
    var c' := c[..j] + c[j + 1..];
    assert c[j] in c;
    forall e: Entry<V> ensures e in c' <==> e in c && e.key != key {
      if e in c && e.key != key {
        var n :| 0 <= n < |c| && c[n] == e;
        assert c'[if n < j then n else n - 1] == e;
      }
    }
    ReplacedIs(hash, log, b, i, c', Contents(b) - {key});
  }

  lemma Updated<V(!new)>(hash: Hash, log: nat, b: Buckets<V>, i: nat, j: nat, value: V)
    requires Good(hash, log, b) && i < |b| && j < |b[i]|
    ensures var b' := b[i := b[i][j := Entry(b[i][j].key, value)]];
            Good(hash, log, b') && Contents(b') == Contents(b)[b[i][j].key := value] && Size(b') == Size(b)
  {
    hide Good;
    BucketIs(hash, log, b, i);
    var c, key := b[i], b[i][j].key;
    var c' := c[j := Entry(key, value)];
    assert c[j] in c;
    forall e: Entry<V> ensures e in c' <==> (if e.key == key then e.value == value else e in c) {
      if e in c && e.key != key {
        var n :| 0 <= n < |c| && c[n] == e;
        assert c'[n] == e;
      }
      assert c'[j] == Entry(key, value);
    }
    ReplacedIs(hash, log, b, i, c', Contents(b)[key := value]);
  }

  // ---------- rehashing

  lemma {:induction false} EmptySize<V>(b: Buckets<V>)
    requires forall i: nat :: i < |b| ==> b[i] == []
    ensures Size(b) == 0
  {
    if b != [] { EmptySize(b[..|b| - 1]); }
  }

  /** Part way through rehashing b: the first i chains and j entries of the next have moved to b'. */
  ghost predicate Moving<V(!new)>(b: Buckets<V>, i: nat, j: nat, b': Buckets<V>) {
    && i <= |b| && (if i < |b| then j <= |b[i]| else j == 0)
    && (forall e: Entry<V> :: Holds(b', e) <==> Holds(b[..i], e) || (i < |b| && e in b[i][..j]))
    && Size(b') == Size(b[..i]) + j
  }

  /** Rehashing starts with an empty table. */
  lemma NoneMoved<V(!new)>(hash: Hash, log: nat, b: Buckets<V>, b': Buckets<V>)
    requires |b'| == Power2(log) && forall i: nat :: i < |b'| ==> b'[i] == []
    ensures b' != [] && Good(hash, log, b') && Moving(b, 0, 0, b')
  {
    EmptySize(b');
    assert forall e: Entry<V> :: !Holds(b', e);
  }

  /** What a prepended entry adds. */
  lemma PrependedHolds<V(!new)>(b: Buckets<V>, n: nat, e: Entry<V>, x: Entry<V>)
    requires n < |b|
    ensures Holds(b[n := [e] + b[n]], x) <==> x == e || Holds(b, x)
  {
    var b1 := b[n := [e] + b[n]];
    if Holds(b, x) { var i: nat :| i < |b| && x in b[i]; assert x in b1[i]; }
    if Holds(b1, x) && x != e { var i: nat :| i < |b1| && x in b1[i]; assert x in b[i]; }
    assert e in b1[n];
  }

  lemma MoveOne<V(!new)>(hash: Hash, log: nat, log': nat, b: Buckets<V>, i: nat, j: nat, b': Buckets<V>)
    requires GoodHash(hash) && Good(hash, log, b) && Good(hash, log', b') && b' != []
    requires Moving(b, i, j, b') && i < |b| && j < |b[i]|
    ensures hash(b[i][j].key, log') < |b'|
    ensures var n := hash(b[i][j].key, log');
            var b1 := b'[n := [b[i][j]] + b'[n]];
            Good(hash, log', b1) && Moving(b, i, j + 1, b1)
  {
    hide Good, Holds, GoodHash, Contents, Size;
    var e := b[i][j];
    NotThereYet(hash, log, log', b, i, j, b');
    Prepended(hash, log', b', e);
    var n := hash(e.key, log');
    assert b[i][..j + 1] == b[i][..j] + [e];
    var b1 := b'[n := [e] + b'[n]];
    assert Good(hash, log', b1) && Size(b1) == Size(b') + 1;
    forall x: Entry<V> ensures Holds(b1, x) <==> Holds(b[..i], x) || x in b[i][..j + 1] {
      PrependedHolds(b', n, e, x);
    }
  }

  lemma NotThereYet<V(!new)>(hash: Hash, log: nat, log': nat, b: Buckets<V>, i: nat, j: nat, b': Buckets<V>)
    requires Good(hash, log, b) && Good(hash, log', b') && Moving(b, i, j, b') && i < |b| && j < |b[i]|
    ensures b[i][j].key !in Contents(b')
  {
    var m, key := Contents(b'), b[i][j].key;
    TableIsMap(hash, log', b');
    if key in m {
      assert Maps(m, Entry(key, m[key]));
      NotMovedYet(hash, log, b, i, j, Entry(key, m[key]));
    }
  }

  lemma NotMovedYet<V(!new)>(hash: Hash, log: nat, b: Buckets<V>, i: nat, j: nat, x: Entry<V>)
    requires Good(hash, log, b) && i < |b| && j < |b[i]| && (Holds(b[..i], x) || x in b[i][..j])
    ensures x.key != b[i][j].key
  {
    if Holds(b[..i], x) {
      PlacedBelow(hash, log, b, i, x);
      assert b[i][j] in b[i];
    } else {
      assert Distinct(b[i]);
    }
  }

  /** A chain is done. */
  lemma MoveNext<V(!new)>(b: Buckets<V>, i: nat, b': Buckets<V>)
    requires i < |b| && Moving(b, i, |b[i]|, b')
    ensures Moving(b, i + 1, 0, b')
  {
    assert b[..i + 1][..i] == b[..i] && b[..i + 1][i] == b[i] && b[i][..|b[i]|] == b[i];
    forall e: Entry<V> ensures Holds(b[..i + 1], e) <==> Holds(b[..i], e) || e in b[i] {
      HoldsLast(b[..i + 1], e);
    }
  }

  /** All chains are done: the same map, the same number of entries. */
  lemma Moved<V(!new)>(hash: Hash, log: nat, log': nat, b: Buckets<V>, b': Buckets<V>)
    requires Good(hash, log, b) && Good(hash, log', b') && Moving(b, |b|, 0, b')
    ensures Contents(b') == Contents(b) && Size(b') == Size(b)
  {
    assert b[..|b|] == b;
    TableIsMap(hash, log, b);
    RepresentsOne(hash, log', b', Contents(b));
  }
}
