/** The `encode` comparison `endIndex == index` (rwkv_tokenizer.c:158) mixes
    a match length relative to `text + index` with the absolute position
    `index`. Read as written, a registered token whose length equals the
    current position is ignored and one raw byte is emitted instead. This
    module shows an input where that happens, and proves the greedy
    longest-match property of the evidently intended comparison
    `endIndex == 0` (equivalently `id == -1`). */
module EncodeFinding {
  import opened Wrappers
  import opened Bytes
  import opened Trie
  import opened Tokenization

  /** `encode` with the greedy longest-match rule: a match is dropped only
      when nothing matched. */
  function EncodeGreedy(tok: Tokenizer, text: seq<byte>): (ids: seq<int>)
    ensures |ids| <= |UpToNul(text)|
  {
    EncodeFrom(tok.root, UpToNul(text), 0, AsIntended)
  }

  /** Greedy longest match: wherever some registered token is a prefix of
      the rest of the text, the corrected loop emits the value of the
      longest such token and skips past it. */
  lemma GreedyTakesLongest(root: TrieNode, text: seq<byte>, index: nat, k: seq<byte>)
    requires index < |text|
    requires 0 < |k| <= |text| - index && k == text[index..index + |k|]
    requires Lookup(root, k) != NO_VALUE
    ensures var m := Longest(root, text[index..]);
            && |k| <= m.len
            && Lookup(root, text[index..index + m.len]) == m.value
            && EncodeFrom(root, text, index, AsIntended) == [m.value] + EncodeFrom(root, text, index + m.len, AsIntended)
  {
    var m := Longest(root, text[index..]);
    LongestIsLongestMatch(root, text[index..]);
    assert text[index..][..|k|] == k;
    assert text[index..][..m.len] == text[index..index + m.len];
    EncodeFromStep(root, text, index, AsIntended);
  }

  /** The corrected `encode` still round-trips through `decode`. */
  lemma GreedyRoundTrip(tok: Tokenizer, text: seq<byte>)
    requires TrieAgreesWithTable(tok) && IdsBelowCount(tok)
    ensures Decode(tok, EncodeGreedy(tok, text)) == Some(UpToNul(text))
  {
    EncodeFromRoundTrip(tok, UpToNul(text), 0, AsIntended);
  }

  /** With "a" registered as 300, the as-written `encode` of "xa" meets the
      match "a" at position 1, whose length is also 1, and emits the raw
      byte 'a' (97); the corrected loop emits 300. */
  lemma AsWrittenSkipsToken()
    ensures var root := Insert(CreateTrieNode(), [97], 300);
            && Lookup(root, [97]) == 300
            && EncodeFrom(root, [120, 97], 0, AsWritten) == [120, 97]
            && EncodeFrom(root, [120, 97], 0, AsIntended) == [120, 300]
  {
    var root := Insert(CreateTrieNode(), [97], 300);
    var text: seq<byte> := [120, 97];
    assert root == TrieNode(map[97 := TrieNode(map[], 300)], NO_VALUE);
    assert Longest(root, text[0..]) == Match(NO_VALUE, 0) by {
      assert text[0..] == text;
    }
    assert Longest(root, text[1..]) == Match(300, 1) by {
      assert text[1..] == [97];
      assert [97][1..] == [];
    }
    assert text[2..] == [];
    EncodeFromStep(root, text, 0, AsWritten);
    EncodeFromStep(root, text, 1, AsWritten);
    EncodeFromStep(root, text, 0, AsIntended);
    EncodeFromStep(root, text, 1, AsIntended);
  }
}
