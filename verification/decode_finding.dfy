/** The `decode` guard `id < tokenizer->num_tokens` (rwkv_tokenizer.c:175
    and :192) compares an id with the number of successful `addToken`
    calls, not with the ids that were registered. The guard protects the
    index into `idx2token`, whose bound is MAX_TOKENS. A vocabulary of
    distinct ids, all at least 256, always leaves some stored id at or above
    the count, so `decode` rejects a token that `encode` emits. This module
    shows that, and proves the round trip for the guard `id < MAX_TOKENS`. */
module DecodeFinding {
  import opened Wrappers
  import opened Bytes
  import opened Trie
  import opened Literal
  import opened Tokenization

  /** `decode` with the guard `id < MAX_TOKENS` in place of
      `id < num_tokens`: the same two passes over a tokenizer whose count is
      replaced by the capacity of `idx2token`. */
  function DecodeWithinCapacity(tok: Tokenizer, ids: seq<int>): (r: Option<seq<byte>>)
    ensures r.Some? <==> forall i :: 0 <= i < |ids| ==>
              ids[i] < RAW_BYTE_IDS || (ids[i] < MAX_TOKENS && ids[i] in tok.idx2token)
  {
    Decode(Tokenizer(tok.root, tok.idx2token, MAX_TOKENS), ids)
  }

  /** The vocabulary conditions of the round trip: every literal can be
      handed to `addToken`, and the ids are distinct and at least 256. */
  ghost predicate FreshVocabulary(entries: seq<Entry>)
  {
    && (forall i :: 0 <= i < |entries| ==> Addable(entries[i].literal, entries[i].id))
    && (forall i :: 0 <= i < |entries| ==> RAW_BYTE_IDS <= entries[i].id)
    && (forall i, j :: 0 <= i < j < |entries| ==> entries[i].id != entries[j].id)
  }

  /** With distinct ids, every successful `addToken` stores a new id, so
      the table holds exactly `num_tokens` entries. */
  lemma {:induction false} LoadCount(entries: seq<Entry>)
    requires FreshVocabulary(entries)
    ensures |Load(entries).idx2token| == Load(entries).numTokens
  {
    if entries != [] {
      var init := entries[..|entries| - 1];
      var last := entries[|entries| - 1];
      assert FreshVocabulary(init);
      LoadCount(init);
      LoadAgrees(init);
      var tok := Load(init);
      assert last.id !in tok.idx2token;
      if ParsePythonLiteral(last.literal, MAX_TOKEN_LENGTH).Decoded? {
        var bytes := ParsePythonLiteral(last.literal, MAX_TOKEN_LENGTH).bytes;
        assert Load(entries).idx2token == tok.idx2token[last.id := bytes];
      }
    }
  }

  /** An entry whose literal decodes has its id in the table. */
  lemma {:induction false} ParsedEntryStored(entries: seq<Entry>, i: nat)
    requires FreshVocabulary(entries)
    requires i < |entries| && ParsePythonLiteral(entries[i].literal, MAX_TOKEN_LENGTH).Decoded?
    ensures entries[i].id in Load(entries).idx2token
  {
    var init := entries[..|entries| - 1];
    assert FreshVocabulary(init);
    if i < |entries| - 1 {
      assert init[i] == entries[i];
      ParsedEntryStored(init, i);
    }
  }

  /** Pigeonhole: a set of integers inside [lo, hi) has at most hi - lo
      members. */
  lemma {:induction false} Bound(s: set<int>, lo: int, hi: int)
    requires lo <= hi
    requires forall x :: x in s ==> lo <= x < hi
    ensures |s| <= hi - lo
    decreases hi - lo
  {
    if lo == hi {
      assert s == {};
    } else {
      Bound(s - {hi - 1}, lo, hi - 1);
    }
  }

  /** As written, `decode` rejects a stored token of every vocabulary of
      distinct ids of at least 256 in which some literal decodes. */
  lemma CountGuardRejectsStoredId(entries: seq<Entry>, i: nat)
    requires FreshVocabulary(entries)
    requires i < |entries| && ParsePythonLiteral(entries[i].literal, MAX_TOKEN_LENGTH).Decoded?
    ensures exists id :: id in Load(entries).idx2token && Decode(Load(entries), [id]) == None
  {
    var tok := Load(entries);
    ParsedEntryStored(entries, i);
    LoadCount(entries);
    LoadAgrees(entries);
    var keys := tok.idx2token.Keys;
    assert |keys| == tok.numTokens;
    forall x | x in keys
      ensures RAW_BYTE_IDS <= x
    {
      var j :| 0 <= j < |entries| && entries[j].id == x;
    }
    if forall x :: x in keys ==> x < |keys| {
      Bound(keys, RAW_BYTE_IDS, |keys|);
    }
    var id :| id in keys && |keys| <= id;
    assert DecodeId(tok, id) == None;
    assert Decode(tok, [id]) == None;
  }

  /** A one-entry vocabulary, `256 'a'`: `encode("a")` emits 256, which the
      guard as written rejects (256 is not below the count 1) and the
      capacity guard decodes back to "a". */
  lemma SingleTokenVocabulary()
    ensures var tok := Load([Entry(256, [SINGLE_QUOTE, 97, SINGLE_QUOTE])]);
            && Encode(tok, [97]) == [256]
            && Decode(tok, [256]) == None
            && DecodeWithinCapacity(tok, [256]) == Some([97])
  {
    var entries := [Entry(256, [SINGLE_QUOTE, 97, SINGLE_QUOTE])];
    var lit := [SINGLE_QUOTE, 97, SINGLE_QUOTE];
    assert ParsePythonLiteral(lit, MAX_TOKEN_LENGTH) == Decoded([97]) by {
      assert Escape([97], SINGLE_QUOTE) == [97];
      ParseEscapedLiteral([97], SINGLE_QUOTE, false, MAX_TOKEN_LENGTH);
      assert [] + [SINGLE_QUOTE] + [97] + [SINGLE_QUOTE] == lit;
    }
    assert entries[..0] == [];
    var tok := Load(entries);
    assert Load(entries[..0]) == CreateTokenizer();
    assert tok == AddToken(CreateTokenizer(), lit, 256);
    var root := Insert(CreateTrieNode(), [97], 256);
    assert tok == Tokenizer(root, map[256 := [97]], 1);
    assert root == TrieNode(map[97 := TrieNode(map[], 256)], NO_VALUE);
    assert UpToNul([97]) == [97];
    var text: seq<byte> := [97];
    assert Longest(root, text[0..]) == Match(256, 1) by {
      assert text[0..] == [97];
      assert [97][1..] == [];
    }
    EncodeFromStep(root, text, 0, AsWritten);
  }

  /** With the capacity guard, `decode(encode(text))` gives back the text up
      to its first NUL for every vocabulary of distinct ids of at least 256. */
  lemma LoadedRoundTrip(entries: seq<Entry>, text: seq<byte>)
    requires FreshVocabulary(entries)
    ensures DecodeWithinCapacity(Load(entries), Encode(Load(entries), text)) == Some(UpToNul(text))
  {
    var tok := Load(entries);
    var wide := Tokenizer(tok.root, tok.idx2token, MAX_TOKENS);
    LoadAgrees(entries);
    assert TrieAgreesWithTable(wide);
    assert IdsBelowCount(wide) by {
      forall id | id in wide.idx2token
        ensures id < MAX_TOKENS
      {
        var j :| 0 <= j < |entries| && entries[j].id == id;
      }
    }
    EncodeDecodeRoundTrip(wide, text);
  }
}
