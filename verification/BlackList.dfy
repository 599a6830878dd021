/**
 The black lists of tool/gec/backend/c/boehm_gc/blacklst.c: hashed bit tables of heap blocks
 that false pointers were seen to point to, and the search that skips whole empty words.
 Addresses are heap block numbers; 0 is the null address.
 */
module BlackList {
  import opened Arithmetic

  /** Each table is a sequence of words, a word being the set of its one bits. */
  datatype Lists = Lists(wordSize: nat,
                         oldNormal: seq<set<nat>>, incompleteNormal: seq<set<nat>>,
                         oldStack: seq<set<nat>>, incompleteStack: seq<set<nat>>,
                         allInteriorPointers: bool)

  ghost predicate Good(bl: Lists) {
    && bl.wordSize > 0
    && |bl.oldStack| > 0
    && |bl.oldNormal| == |bl.incompleteNormal| == |bl.oldStack| == |bl.incompleteStack|
  }

  /** PHT_HASH: the block number modulo the number of table entries. */
  function Hash(bl: Lists, h: nat): (index: nat)
    requires Good(bl)
    ensures index / bl.wordSize < |bl.oldStack|
  {
    MulPositive(|bl.oldStack|, bl.wordSize);
    var index := h % (|bl.oldStack| * bl.wordSize);
    DivUpper(index, bl.wordSize, |bl.oldStack|);
    index
  }

  /** The blocks from h up to the next word boundary of the tables. */
  function ToBoundary(bl: Lists, h: nat): (d: nat)
    requires Good(bl)
    ensures 1 <= d <= bl.wordSize
  {
    bl.wordSize - Hash(bl, h) % bl.wordSize
  }

  /** The table words that h falls in are zero. */
  predicate WordClean(bl: Lists, h: nat)
    requires Good(bl)
  {
    var word := Hash(bl, h) / bl.wordSize;
    bl.oldStack[word] == {} && bl.incompleteStack[word] == {}
  }

  function Bit(table: seq<set<nat>>, w: nat, index: nat): bool
    requires w > 0 && index / w < |table|
  {
    index % w in table[index / w]
  }

  predicate NormalListed(bl: Lists, h: nat)
    requires Good(bl)
  {
    var index := Hash(bl, h);
    Bit(bl.oldNormal, bl.wordSize, index) || Bit(bl.incompleteNormal, bl.wordSize, index)
  }

  predicate StackListed(bl: Lists, h: nat)
    requires Good(bl)
  {
    var index := Hash(bl, h);
    Bit(bl.oldStack, bl.wordSize, index) || Bit(bl.incompleteStack, bl.wordSize, index)
  }

  /** The block-by-block meaning: an object of n blocks should not start at h. */
  ghost predicate Listed(bl: Lists, h: nat, n: nat)
    requires Good(bl)
  {
    || (!bl.allInteriorPointers && NormalListed(bl, h))
    || exists j :: h <= j < h + n && StackListed(bl, j)
  }

  /** A shorter object starting at the same block is black-listed only if the longer is. */
  lemma ListedMonotone(bl: Lists, h: nat, m: nat, n: nat)
    requires Good(bl) && m <= n
    ensures Listed(bl, h, m) ==> Listed(bl, h, n)
  {
  }

  /** The table word of a block also holds the blocks up to the next word boundary. */
  lemma SameWord(bl: Lists, h: nat, d: nat)
    requires Good(bl) && d < ToBoundary(bl, h)
    ensures Hash(bl, h + d) / bl.wordSize == Hash(bl, h) / bl.wordSize
  {
    var w, t, i := bl.wordSize, |bl.oldStack|, Hash(bl, h);
    var q := i / w;
    MulPositive(t, w);
    DivDefinition(i, w);
    MulMonotone(q + 1, t, w);
    MulSuccessor(q, w);
    ModAdd(h, d, t * w);
    DivUnique(i + d, w, q);
  }

  lemma CleanToBoundary(bl: Lists, h: nat)
    requires Good(bl) && WordClean(bl, h)
    ensures forall j :: h <= j < h + ToBoundary(bl, h) ==> !StackListed(bl, j)
  {
    forall j | h <= j < h + ToBoundary(bl, h)
      ensures !StackListed(bl, j)
    {
      SameWord(bl, h, j - h);
    }
  }

  /** GC_is_black_listed: 0 if an object of n blocks may start at h, else the next start worth
      trying: after the first of the blocks that is listed.  A length below one block still looks at the first
      block. */
  method IsBlackListed(bl: Lists, h: nat, n: nat) returns (r: nat)
    requires Good(bl)
    ensures var len := if n == 0 then 1 else n;
            && (r == 0 <==> !Listed(bl, h, len))
            && (r != 0 ==> h < r <= h + len && forall s :: h <= s < r ==> Listed(bl, s, len))
            && (r != 0 ==> if !bl.allInteriorPointers && NormalListed(bl, h) then r == h + 1
                           else StackListed(bl, r - 1) && forall j :: h <= j < r - 1 ==> !StackListed(bl, j))
  {
    if !bl.allInteriorPointers && NormalListed(bl, h) {
      return h + 1;
    }
    var i := 0;
    while i == 0 || i < n
      invariant forall j :: h <= j < h + i ==> !StackListed(bl, j)
      decreases n + 1 - i
    {
      if WordClean(bl, h + i) {
        CleanToBoundary(bl, h + i);
        i := i + ToBoundary(bl, h + i);
      } else {
        if StackListed(bl, h + i) {
          return h + i + 1;
        }
        i := i + 1;
      }
    }
    r := 0;
  }
}
