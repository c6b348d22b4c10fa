/** The block hasher: messages are flattened to one role-prefixed byte string, cut into
    fixed-size blocks (the last one may be short), and every block is digested. The digest
    itself (xxhash) is a parameter: nothing here depends on which function it is. */
module Tokenizer {
  import opened Words

  const COLON: Byte := 58

  type Text = seq<Byte>

  datatype Message = Message(role: Text, content: Text)

  /** "role:content" of every message, back to back. */
  function Flatten(messages: seq<Message>): Text
    decreases |messages|
  {
    if messages == [] then []
    else
      var last := messages[|messages| - 1];
      Flatten(messages[..|messages| - 1]) + last.role + [COLON] + last.content
  }

  /** Appending turns to a conversation extends its flattened text. */
  lemma {:induction false} FlattenAppend(a: seq<Message>, b: seq<Message>)
    ensures Flatten(a) <= Flatten(a + b)
    ensures Flatten(a + b) == Flatten(a) + Flatten(b)
    decreases |b|
  {
    if b == [] {
      assert a + b == a;
    } else {
      var front, last := b[..|b| - 1], b[|b| - 1];
      assert (a + b)[..|a + b| - 1] == a + front;
      FlattenAppend(a, front);
      var tail := last.role + [COLON] + last.content;
      assert Flatten(b) == Flatten(front) + tail;
      assert Flatten(a + b) == Flatten(a + front) + tail;
    }
  }

  /** A request with at least one message never flattens to nothing. */
  lemma FlattenIsNonEmpty(messages: seq<Message>)
    requires messages != []
    ensures Flatten(messages) != []
  {
  }

  datatype BlockHasher = BlockHasher(blockSize: nat, digest: Text -> Word64) {

    predicate Valid() {
      blockSize > 0
    }

    /** Number of blocks of a text of n bytes: n / blockSize rounded up. */
    function BlockCount(n: nat): nat
      requires Valid()
    {
      (n + blockSize - 1) / blockSize
    }

    /** The i-th block of a text, cut short at its end. */
    function Block(text: Text, i: nat): Text
      requires Valid() && i < BlockCount(|text|)
    {
      BlockStarts(|text|, i);
      if i * blockSize + blockSize <= |text|
      then text[i * blockSize..i * blockSize + blockSize]
      else text[i * blockSize..]
    }

    /** Block i starts inside the text exactly when i is below the block count. */
    lemma BlockStarts(n: nat, i: nat)
      requires Valid()
      ensures i < BlockCount(n) <==> i * blockSize < n
    {
      var q := BlockCount(n);
      assert q * blockSize <= n + blockSize - 1 < q * blockSize + blockSize;
      if i < q {
        Scale(i + 1, q);
        assert (i + 1) * blockSize == i * blockSize + blockSize;
      } else {
        Scale(q, i);
      }
    }

    lemma Scale(i: nat, j: nat)
      requires i <= j
      ensures i * blockSize <= j * blockSize
    {
      assert (j - i) * blockSize >= 0;
    }

    /** The block hashes of a text. */
    function HashText(text: Text): (hashes: seq<Word64>)
      requires Valid()
      ensures |hashes| == BlockCount(|text|)
    {
      seq<Word64>(BlockCount(|text|), i requires 0 <= i < BlockCount(|text|) => digest(Block(text, i)))
    }

    /** Concatenating the first k blocks of a text. */
    function Join(text: Text, k: nat): Text
      requires Valid() && k <= BlockCount(|text|)
    {
      if k == 0 then [] else Join(text, k - 1) + Block(text, k - 1)
    }

    /** Chunking loses nothing and reorders nothing: the blocks joined are the text. */
    lemma ChunksCoverText(text: Text)
      requires Valid()
      ensures Join(text, BlockCount(|text|)) == text
    {
      var q := BlockCount(|text|);
      JoinIsPrefix(text, q);
      BlockStarts(|text|, q);
    }

    lemma {:induction false} JoinIsPrefix(text: Text, k: nat)
      requires Valid() && k <= BlockCount(|text|)
      ensures Join(text, k) == if k * blockSize <= |text| then text[..k * blockSize] else text
    {
      if k > 0 {
        JoinIsPrefix(text, k - 1);
        BlockStarts(|text|, k - 1);
        BlockExtends(text, (k - 1) * blockSize, k - 1);
        assert k * blockSize == (k - 1) * blockSize + blockSize;
      }
    }

    /** The block that starts right after a prefix extends it to the next block border. */
    lemma BlockExtends(text: Text, start: nat, i: nat)
      requires Valid() && i < BlockCount(|text|) && start == i * blockSize < |text|
      ensures text[..start] + Block(text, i) == if start + blockSize <= |text| then text[..start + blockSize] else text
    {
    }

    /** Chunking is stable under append: every block that is full in a text is unchanged in any
        text that extends it. */
    lemma FullBlocksAreStable(text: Text, longer: Text)
      requires Valid() && text <= longer
      ensures |text| / blockSize <= BlockCount(|text|) <= BlockCount(|longer|)
      ensures HashText(text)[..|text| / blockSize] == HashText(longer)[..|text| / blockSize]
    {
      var full, a, b := |text| / blockSize, HashText(text), HashText(longer);
      BlockCountMonotone(|text|, |longer|);
      forall i | 0 <= i < full
        ensures a[i] == b[i]
      {
        FullBlockIsStable(text, longer, i);
      }
      assert a[..full] == b[..full];
    }

    lemma FullBlockIsStable(text: Text, longer: Text, i: nat)
      requires Valid() && text <= longer && i < |text| / blockSize
      ensures i < BlockCount(|text|) <= BlockCount(|longer|)
      ensures Block(text, i) == Block(longer, i)
    {
      BlockCountMonotone(|text|, |longer|);
      Scale(i + 1, |text| / blockSize);
      assert (i + 1) * blockSize == i * blockSize + blockSize;
      SameSlice(text, longer, i * blockSize, i * blockSize + blockSize);
    }

    lemma SameSlice(text: Text, longer: Text, from: nat, to: nat)
      requires text <= longer && from <= to <= |text|
      ensures text[from..to] == longer[from..to]
    {
    }

    lemma BlockCountMonotone(n: nat, m: nat)
      requires Valid() && n <= m
      ensures n / blockSize <= BlockCount(n) <= BlockCount(m)
    {
      DivMonotone(n, n + blockSize - 1);
      DivMonotone(n + blockSize - 1, m + blockSize - 1);
    }

    lemma DivMonotone(n: nat, m: nat)
      requires Valid() && n <= m
      ensures n / blockSize <= m / blockSize
    {
      var a, b := n / blockSize, m / blockSize;
      assert a * blockSize <= n && m < b * blockSize + blockSize;
      assert (b + 1) * blockSize == b * blockSize + blockSize;
      if b + 1 <= a {
        Scale(b + 1, a);
      }
    }

    /** Builds the flattened buffer, then walks it block by block. */
    method HashPrefix(messages: seq<Message>) returns (hashes: seq<Word64>)
      requires Valid()
      ensures hashes == HashText(Flatten(messages))
    {
      var text: Text := [];
      for i := 0 to |messages|
        invariant text == Flatten(messages[..i])
      {
        assert messages[..i + 1][..i] == messages[..i];
        text := text + messages[i].role;
        text := text + [COLON];
        text := text + messages[i].content;
      }
      assert messages[..|messages|] == messages;
      var n := |text|;
      if n == 0 {
        BlockStarts(0, 0);
        return [];
      }
      hashes := [];
      var offset := 0;
      while offset < n
        invariant offset == |hashes| * blockSize
        invariant |hashes| <= BlockCount(n)
        invariant forall i :: 0 <= i < |hashes| ==> hashes[i] == digest(Block(text, i))
        decreases n - offset
      {
        BlockStarts(n, |hashes|);
        var end := offset + blockSize;
        if end > n {
          end := n;
        }
        var block := text[offset..end];
        assert block == Block(text, |hashes|);
        hashes := hashes + [digest(block)];
        assert (|hashes| - 1) * blockSize + blockSize == |hashes| * blockSize;
        offset := offset + blockSize;
      }
      BlockStarts(n, |hashes|);
    }
  }

  /** m is the length of the longest common prefix of a and b. */
  predicate IsMatchLength(a: seq<Word64>, b: seq<Word64>, m: nat) {
    m <= |a| && m <= |b| && a[..m] == b[..m] && (m < |a| && m < |b| ==> a[m] != b[m])
  }

  function MatchLength(a: seq<Word64>, b: seq<Word64>): (m: nat)
    ensures IsMatchLength(a, b, m)
  {
    if a == [] || b == [] || a[0] != b[0] then 0
    else
      var m := MatchLength(a[1..], b[1..]);
      assert a[..m + 1] == [a[0]] + a[1..][..m] && b[..m + 1] == [b[0]] + b[1..][..m];
      m + 1
  }

  /** A common prefix of length k exists exactly when k is within the match length. */
  lemma CommonPrefixIff(a: seq<Word64>, b: seq<Word64>, k: nat)
    requires k <= |a| && k <= |b|
    ensures a[..k] == b[..k] <==> k <= MatchLength(a, b)
  {
    var m := MatchLength(a, b);
    if k <= m {
      assert a[..k] == a[..m][..k] && b[..k] == b[..m][..k];
    } else {
      assert a[..k][m] == a[m] && b[..k][m] == b[m];
    }
  }

  /** The index loop of the source. */
  method PrefixMatch(a: seq<Word64>, b: seq<Word64>) returns (m: nat)
    ensures m == MatchLength(a, b)
  {
    var n := |a|;
    if |b| < n {
      n := |b|;
    }
    for i := 0 to n
      invariant a[..i] == b[..i]
    {
      if a[i] != b[i] {
        CommonPrefixIff(a, b, i);
        CommonPrefixIff(a, b, i + 1);
        assert a[..i + 1][i] == a[i];
        return i;
      }
    }
    CommonPrefixIff(a, b, n);
    return n;
  }
}
