/** What the block hashes of a text say about the text, stretch by stretch, without naming how the
    hasher cuts it. */
module TokenizerLaws {
  import opened Words
  import opened Tokenizer

  /** One message flattens to its role, a colon and its content. */
  lemma FlattenOne(m: Message)
    ensures Flatten([m]) == m.role + [58] + m.content
  {
    assert [m][..0] == [];
    assert Flatten([]) + m.role == m.role;
  }

  /** Where block i of a text of n bytes ends. */
  function EndOf(h: BlockHasher, n: nat, i: nat): nat {
    if (i + 1) * h.blockSize <= n then (i + 1) * h.blockSize else n
  }

  /** There is one hash for every blockSize bytes begun. */
  lemma HashCount(h: BlockHasher, text: Text)
    requires h.Valid()
    ensures text == [] <==> h.HashText(text) == []
    ensures text != [] ==> (|h.HashText(text)| - 1) * h.blockSize < |text| <= |h.HashText(text)| * h.blockSize
  {
    var q := |h.HashText(text)|;
    h.BlockStarts(|text|, q);
    h.BlockStarts(|text|, 0);
    if q > 0 {
      h.BlockStarts(|text|, q - 1);
    }
  }

  /** The i-th hash is the digest of the i-th stretch of blockSize bytes, cut short by the end. */
  lemma HashOfStretch(h: BlockHasher, text: Text, i: nat)
    requires h.Valid() && i < |h.HashText(text)|
    ensures i * h.blockSize < EndOf(h, |text|, i) <= |text|
    ensures h.HashText(text)[i] == h.digest(text[i * h.blockSize..EndOf(h, |text|, i)])
  {
    BlockIsStretch(h, text, i);
    assert h.HashText(text)[i] == h.digest(h.Block(text, i));
  }

  /** A block that is full in both texts has the same hash in both exactly if they agree on that stretch
      of bytes, as long as the digest tells these two stretches apart. */
  lemma SameHashIffSameStretch(h: BlockHasher, a: Text, b: Text, i: nat, from: nat, to: nat)
    requires h.Valid() && from == i * h.blockSize && to == from + h.blockSize && to <= |a| && to <= |b|
    requires !Clash(h.digest, a[from..to], b[from..to])
    ensures i < |h.HashText(a)| && i < |h.HashText(b)|
    ensures h.HashText(a)[i] == h.HashText(b)[i] <==> a[from..to] == b[from..to]
  {
    assert (i + 1) * h.blockSize == to;
    h.BlockStarts(|a|, i);
    h.BlockStarts(|b|, i);
    HashOfStretch(h, a, i);
    HashOfStretch(h, b, i);
  }

  /** Two different texts with the same digest. */
  predicate Clash(digest: Text -> Word64, x: Text, y: Text) {
    x != y && digest(x) == digest(y)
  }

  /** The digest tells all stretches of the one text from all different ones of the other. */
  ghost predicate TellsApart(h: BlockHasher, a: Text, b: Text) {
    forall i, j, k, l :: 0 <= i <= j <= |a| && 0 <= k <= l <= |b| ==> !Clash(h.digest, a[i..j], b[k..l])
  }

  /** Then the hashes determine the text. */
  lemma HashesDetermineText(h: BlockHasher, a: Text, b: Text)
    requires h.Valid() && TellsApart(h, a, b)
    ensures h.HashText(a) == h.HashText(b) <==> a == b
  {
    if h.HashText(a) == h.HashText(b) {
      var q := |h.HashText(a)|;
      forall i | 0 <= i < q
        ensures h.Block(a, i) == h.Block(b, i)
      {
        SameBlock(h, a, b, i);
      }
      JoinsAgree(h, a, b, q);
      h.ChunksCoverText(a);
      h.ChunksCoverText(b);
    }
  }

  lemma SameBlock(h: BlockHasher, a: Text, b: Text, i: nat)
    requires h.Valid() && TellsApart(h, a, b) && h.HashText(a) == h.HashText(b) && i < |h.HashText(a)|
    ensures h.Block(a, i) == h.Block(b, i)
  {
    HashOfStretch(h, a, i);
    HashOfStretch(h, b, i);
    var from, to, until := i * h.blockSize, EndOf(h, |a|, i), EndOf(h, |b|, i);
    assert !Clash(h.digest, a[from..to], b[from..until]);
    BlockIsStretch(h, a, i);
    BlockIsStretch(h, b, i);
  }

  lemma BlockIsStretch(h: BlockHasher, text: Text, i: nat)
    requires h.Valid() && i < |h.HashText(text)|
    ensures i * h.blockSize < EndOf(h, |text|, i) <= |text|
    ensures h.Block(text, i) == text[i * h.blockSize..EndOf(h, |text|, i)]
  {
    h.BlockStarts(|text|, i);
    assert (i + 1) * h.blockSize == i * h.blockSize + h.blockSize;
  }

  lemma {:induction false} JoinsAgree(h: BlockHasher, a: Text, b: Text, k: nat)
    requires h.Valid() && k <= h.BlockCount(|a|) && k <= h.BlockCount(|b|)
    requires forall i :: 0 <= i < k ==> h.Block(a, i) == h.Block(b, i)
    ensures h.Join(a, k) == h.Join(b, k)
  {
    if k > 0 {
      JoinsAgree(h, a, b, k - 1);
    }
  }
}
