/** The tokenizer of `rwkv_tokenizer.c`: the `Tokenizer` record,
    `createTokenizer`, `addToken`, `encode` and `decode`.

    The fixed arrays `idx2token[MAX_TOKENS]` become a map from id to the
    bytes stored for it (a missing id is a NULL entry). A stored token is a
    C string: `decode` reads it back with `strlen`, so only the bytes before
    its first NUL come back. */
module Tokenization {
  import opened Wrappers
  import opened Bytes
  import opened Trie
  import opened Literal

  /** The capacity of `idx2token`. */
  const MAX_TOKENS: int := 100000

  /** Ids below this bound always decode as the raw byte they name. */
  const RAW_BYTE_IDS: int := 256

  datatype Tokenizer = Tokenizer(root: TrieNode, idx2token: map<int, seq<byte>>, numTokens: int)

  /** `createTokenizer`: an empty trie, an empty table, no tokens. */
  function CreateTokenizer(): (tok: Tokenizer)
    ensures forall k :: Lookup(tok.root, k) == NO_VALUE
    ensures tok.idx2token == map[] && tok.numTokens == 0
  {
    var tok := Tokenizer(CreateTrieNode(), map[], 0);
    assert forall k :: Lookup(tok.root, k) == NO_VALUE by {
      forall k ensures Lookup(tok.root, k) == NO_VALUE {
        EmptyLookup(k);
      }
    }
    tok
  }

  /** The literals `addToken` is defined on: an id inside `idx2token`, and a
      literal whose decoding never reads past the NUL at position
      |literal|. */
  predicate Addable(literal: seq<byte>, id: int)
  {
    0 <= id < MAX_TOKENS && !ParsePythonLiteral(literal, MAX_TOKEN_LENGTH).OutOfBounds?
  }

  /** `addToken`: decode the literal into a buffer of MAX_TOKEN_LENGTH bytes;
      on failure change nothing, otherwise register the bytes under `id` in
      the trie and the table and count one more token. */
  function AddToken(tok: Tokenizer, literal: seq<byte>, id: int): (r: Tokenizer)
    requires Addable(literal, id)
    ensures ParsePythonLiteral(literal, MAX_TOKEN_LENGTH).BadEscape? ==> r == tok
    ensures ParsePythonLiteral(literal, MAX_TOKEN_LENGTH).Decoded? ==>
              var bytes := ParsePythonLiteral(literal, MAX_TOKEN_LENGTH).bytes;
              && |bytes| <= MAX_TOKEN_LENGTH
              && Abs(r.root) == Abs(tok.root)[bytes := id]
              && r.idx2token == tok.idx2token[id := bytes]
              && r.numTokens == tok.numTokens + 1
  {
    match ParsePythonLiteral(literal, MAX_TOKEN_LENGTH)
    case Decoded(bytes) =>
      InsertAbs(tok.root, bytes, id);
      Tokenizer(Insert(tok.root, bytes, id), tok.idx2token[id := bytes], tok.numTokens + 1)
    case _ => tok
  }

  /** An id `encode` may emit for a match: the value of some registered
      non-empty key. */
  ghost predicate IsTokenValue(root: TrieNode, v: int)
  {
    exists k: seq<byte> {:trigger Lookup(root, k)} :: |k| > 0 && v != NO_VALUE && Lookup(root, k) == v
  }

  /** When the `encode` loop drops the match and emits one raw byte. The
      match is taken on `text[index..]`, so its length is relative to
      `index`, but the C code compares it with the absolute `index`
      (`endIndex == index || id == -1`): a match whose length equals the
      current position is dropped too. `AsIntended` is the greedy
      longest-match rule: drop a match only when nothing matched. */
  datatype DropRule = AsWritten | AsIntended

  predicate Drops(rule: DropRule, m: Match, index: nat)
  {
    match rule
    case AsWritten => m.len == index || m.value == NO_VALUE
    case AsIntended => m.value == NO_VALUE
  }

  /** What one round of the `encode` loop emits, and where it goes on. */
  datatype Emit = Emit(id: int, next: nat)

  /** One round of the `encode` loop at position `index`: the longest match
      on `text[index..]`, unless it is dropped, in which case the raw byte. */
  function EncodeStep(root: TrieNode, text: seq<byte>, index: nat, rule: DropRule): (e: Emit)
    requires index < |text|
    ensures index < e.next <= |text|
  {
    var m := Longest(root, text[index..]);
    if Drops(rule, m, index) then Emit(text[index], index + 1)
    else Emit(m.value, index + m.len)
  }

  /** The `encode` loop from position `index` of `text`. */
  function EncodeFrom(root: TrieNode, text: seq<byte>, index: nat, rule: DropRule): (ids: seq<int>)
    requires index <= |text|
    ensures |ids| <= |text| - index
    decreases |text| - index
  {
    if index == |text| then []
    else
      var e := EncodeStep(root, text, index, rule);
      [e.id] + EncodeFrom(root, text, e.next, rule)
  }

  /** An id `encode` may emit: a raw byte or the value of a registered
      token. */
  ghost predicate IsEmittable(root: TrieNode, id: int)
  {
    0 <= id < RAW_BYTE_IDS || IsTokenValue(root, id)
  }

  /** Every id `encode` emits is a raw byte or the value of a registered
      token. */
  lemma {:induction false} EncodeFromIds(root: TrieNode, text: seq<byte>, index: nat, rule: DropRule)
    requires index <= |text|
    ensures forall id :: id in EncodeFrom(root, text, index, rule) ==> IsEmittable(root, id)
    decreases |text| - index
  {
    if index < |text| {
      var m := Longest(root, text[index..]);
      if Drops(rule, m, index) {
        EncodeFromIds(root, text, index + 1, rule);
        assert EncodeFrom(root, text, index, rule) == [text[index]] + EncodeFrom(root, text, index + 1, rule);
      } else {
        LongestIsLongestMatch(root, text[index..]);
        assert Lookup(root, text[index..][..m.len]) == m.value;
        assert IsTokenValue(root, m.value);
        EncodeFromIds(root, text, index + m.len, rule);
        assert EncodeFrom(root, text, index, rule) == [m.value] + EncodeFrom(root, text, index + m.len, rule);
      }
    }
  }

  /** `encode`: the text is read up to its first NUL. */
  function Encode(tok: Tokenizer, text: seq<byte>): (ids: seq<int>)
    ensures |ids| <= |UpToNul(text)|
    ensures UpToNul(text) == [] ==> ids == []
  {
    EncodeFrom(tok.root, UpToNul(text), 0, AsWritten)
  }

  /** `encode` never looks past the first NUL of the text. */
  lemma EncodeStopsAtNul(tok: Tokenizer, s: seq<byte>, rest: seq<byte>)
    requires NUL !in s
    ensures Encode(tok, s + [NUL] + rest) == Encode(tok, s)
  {
    UpToNulAppend(s, rest);
    UpToNulOfNulFree(s);
  }

  /** `encode`, following the C loop with `findLongest`. The result fits the
      buffer of `strlen(text)` ints the C code allocates. */
  method EncodeBuffer(tok: Tokenizer, text: seq<byte>) returns (encoded: seq<int>)
    ensures encoded == Encode(tok, text)
    ensures |encoded| <= |UpToNul(text)|
  {
    var t := UpToNul(text);
    var length := |t|;
    encoded := [];
    var index := 0;
    ghost var all := EncodeFrom(tok.root, t, 0, AsWritten);
    assert encoded + all == all;
    while index < length
      invariant 0 <= index <= length
      invariant |encoded| <= index
      invariant encoded + EncodeFrom(tok.root, t, index, AsWritten) == all
      decreases length - index
    {
      var id, endIndex := FindLongest(tok.root, t[index..]);
      ghost var e := EncodeStep(tok.root, t, index, AsWritten);
      assert e == if endIndex == index || id == NO_VALUE then Emit(t[index], index + 1) else Emit(id, index + endIndex);
      EncodeLoopStep(tok.root, t, index, encoded);
      ghost var before := encoded;
      if endIndex == index || id == NO_VALUE {
        encoded := encoded + [t[index]];
        index := index + 1;
      } else {
        encoded := encoded + [id];
        index := index + endIndex;
      }
      assert encoded == before + [e.id] && index == e.next;
    }
  }

  /** What one round of the C loop does to the output built so far. */
  lemma EncodeLoopStep(root: TrieNode, text: seq<byte>, index: nat, encoded: seq<int>)
    requires index < |text|
    ensures var e := EncodeStep(root, text, index, AsWritten);
            encoded + EncodeFrom(root, text, index, AsWritten) == (encoded + [e.id]) + EncodeFrom(root, text, e.next, AsWritten)
  {
    var e := EncodeStep(root, text, index, AsWritten);
    var rest := EncodeFrom(root, text, e.next, AsWritten);
    assert EncodeFrom(root, text, index, AsWritten) == [e.id] + rest;
    assert encoded + ([e.id] + rest) == (encoded + [e.id]) + rest;
  }

  /** One round of the `encode` loop. */
  lemma EncodeFromStep(root: TrieNode, text: seq<byte>, index: nat, rule: DropRule)
    requires index < |text|
    ensures var m := Longest(root, text[index..]);
            EncodeFrom(root, text, index, rule) ==
              if Drops(rule, m, index) then [text[index]] + EncodeFrom(root, text, index + 1, rule)
              else [m.value] + EncodeFrom(root, text, index + m.len, rule)
  {
  }

  /** What one id decodes to: ids below 256 are the byte `(char)id` even when
      registered, other ids need `id < num_tokens` and a stored token, which
      is read back up to its first NUL. For a negative id the conversion to
      `char` is implementation-defined in C; the model takes the usual
      two's-complement truncation, `id` modulo 256. */
  function DecodeId(tok: Tokenizer, id: int): (r: Option<seq<byte>>)
    ensures id < RAW_BYTE_IDS ==> r == Some([id % 256])
    ensures RAW_BYTE_IDS <= id ==> (r.Some? <==> id < tok.numTokens && id in tok.idx2token)
    ensures r.Some? && RAW_BYTE_IDS <= id ==>
              var stored := tok.idx2token[id];
              && NUL !in r.value && r.value <= stored
              && (|r.value| < |stored| ==> stored[|r.value|] == NUL)
  {
    if id < RAW_BYTE_IDS then Some([id % 256])
    else if id < tok.numTokens && id in tok.idx2token then Some(UpToNul(tok.idx2token[id]))
    else None
  }

  /** `decode`: all ids or nothing. The result is the in-order concatenation
      of what each id decodes to, and there is none (NULL) as soon as one id
      is unknown. */
  function Decode(tok: Tokenizer, ids: seq<int>): (r: Option<seq<byte>>)
    ensures r.Some? <==> forall i :: 0 <= i < |ids| ==> DecodeId(tok, ids[i]).Some?
    ensures ids == [] ==> r == Some([])
  {
    if ids == [] then Some([])
    else
      match (DecodeId(tok, ids[0]), Decode(tok, ids[1..]))
      case (Some(head), Some(tail)) => Some(head + tail)
      case _ => None
  }

  /** Decoding is compositional: a concatenation of id sequences decodes to
      the concatenation of their decodings, and fails if either part does. */
  lemma {:induction false} DecodeAppend(tok: Tokenizer, a: seq<int>, b: seq<int>)
    ensures Decode(tok, a + b) ==
              match (Decode(tok, a), Decode(tok, b))
              case (Some(x), Some(y)) => Some(x + y)
              case _ => None
  {
    if a == [] {
      assert a + b == b;
      if Decode(tok, b).Some? {
        assert [] + Decode(tok, b).value == Decode(tok, b).value;
      }
    } else {
      var h, a' := a[0], a[1..];
      assert a == [h] + a';
      assert a + b == [h] + (a' + b);
      DecodeAppend(tok, a', b);
      DecodeCons(tok, h, a' + b);
      DecodeCons(tok, h, a');
      if DecodeId(tok, h).Some? && Decode(tok, a').Some? && Decode(tok, b).Some? {
        var x, y, z := DecodeId(tok, h).value, Decode(tok, a').value, Decode(tok, b).value;
        assert x + (y + z) == (x + y) + z;
      }
    }
  }

  /** Decoding one more id at the front. */
  lemma DecodeCons(tok: Tokenizer, id: int, ids: seq<int>)
    ensures Decode(tok, [id] + ids) ==
              match (DecodeId(tok, id), Decode(tok, ids))
              case (Some(h), Some(x)) => Some(h + x)
              case _ => None
  {
    assert ([id] + ids)[0] == id;
    assert ([id] + ids)[1..] == ids;
  }

  /** Decoding one more id at the end, as the C loops do. */
  lemma DecodeSnoc(tok: Tokenizer, ids: seq<int>, id: int)
    ensures Decode(tok, ids + [id]) ==
              match (Decode(tok, ids), DecodeId(tok, id))
              case (Some(x), Some(h)) => Some(x + h)
              case _ => None
  {
    DecodeAppend(tok, ids, [id]);
    assert [id][1..] == [];
    if DecodeId(tok, id).Some? {
      assert DecodeId(tok, id).value + [] == DecodeId(tok, id).value;
    }
  }

  /** Raw-byte ids decode to themselves whatever the table holds: a
      registered id below 256 is shadowed. */
  lemma {:induction false} DecodeRawBytes(tok: Tokenizer, bytes: seq<byte>)
    ensures Decode(tok, bytes) == Some(bytes)
  {
    if bytes != [] {
      DecodeRawBytes(tok, bytes[1..]);
      assert [bytes[0]] + bytes[1..] == bytes;
    }
  }

  /** `decode`, following the C code: a first pass that validates every id
      and sums the output length, then a second pass that copies. */
  method DecodeBuffer(tok: Tokenizer, tokens: seq<int>) returns (decoded: Option<seq<byte>>, totalLength: nat)
    ensures decoded == Decode(tok, tokens)
    ensures decoded.Some? ==> |decoded.value| == totalLength
  {
    totalLength := 0;
    for i := 0 to |tokens|
      invariant Decode(tok, tokens[..i]).Some?
      invariant totalLength == |Decode(tok, tokens[..i]).value|
    {
      var id := tokens[i];
      assert tokens[..i + 1] == tokens[..i] + [id];
      DecodeSnoc(tok, tokens[..i], id);
      if id < RAW_BYTE_IDS {
        totalLength := totalLength + 1;
      } else if id < tok.numTokens && id in tok.idx2token {
        totalLength := totalLength + |UpToNul(tok.idx2token[id])|;
      } else {
        assert DecodeId(tok, tokens[i]).None?;
        return None, totalLength;
      }
    }
    assert tokens[..|tokens|] == tokens;
    var out: seq<byte> := [];
    for i := 0 to |tokens|
      invariant Decode(tok, tokens[..i]) == Some(out)
    {
      var id := tokens[i];
      assert tokens[..i + 1] == tokens[..i] + [id];
      DecodeSnoc(tok, tokens[..i], id);
      assert DecodeId(tok, tokens[i]).Some?;
      if id < RAW_BYTE_IDS {
        out := out + [id % 256];
      } else if id < tok.numTokens && id in tok.idx2token {
        out := out + UpToNul(tok.idx2token[id]);
      }
    }
    decoded := Some(out);
  }

  /** The tokenizer state under which `decode` inverts `encode`: every
      registered non-empty key has an id of at least 256 whose table entry
      holds exactly that key, and every stored id is below `num_tokens`. */
  ghost predicate TrieAgreesWithTable(tok: Tokenizer)
  {
    forall k {:trigger Lookup(tok.root, k)} :: |k| > 0 && Lookup(tok.root, k) != NO_VALUE ==>
      && RAW_BYTE_IDS <= Lookup(tok.root, k)
      && Lookup(tok.root, k) in tok.idx2token
      && tok.idx2token[Lookup(tok.root, k)] == k
  }

  ghost predicate IdsBelowCount(tok: Tokenizer)
  {
    forall id :: id in tok.idx2token ==> id < tok.numTokens
  }

  /** The matched branch of one `encode` step decodes to the matched bytes. */
  lemma MatchDecodes(tok: Tokenizer, text: seq<byte>, index: nat)
    requires TrieAgreesWithTable(tok) && IdsBelowCount(tok)
    requires NUL !in text
    requires index < |text|
    requires Longest(tok.root, text[index..]).len > 0
    ensures var m := Longest(tok.root, text[index..]);
            index + m.len <= |text| && DecodeId(tok, m.value) == Some(text[index..index + m.len])
  {
    var m := Longest(tok.root, text[index..]);
    LongestIsLongestMatch(tok.root, text[index..]);
    var key := text[index..][..m.len];
    assert Lookup(tok.root, key) == m.value;
    assert key == text[index..index + m.len];
    assert NUL !in key by {
      forall j | 0 <= j < |key| ensures key[j] != NUL {
        assert key[j] == text[index + j];
      }
    }
    UpToNulOfNulFree(key);
  }

  /** What one round of `encode` emits decodes to the bytes it consumed. */
  lemma StepDecodes(tok: Tokenizer, text: seq<byte>, index: nat, rule: DropRule)
    requires TrieAgreesWithTable(tok) && IdsBelowCount(tok)
    requires NUL !in text
    requires index < |text|
    ensures var e := EncodeStep(tok.root, text, index, rule);
            DecodeId(tok, e.id) == Some(text[index..e.next])
  {
    var m := Longest(tok.root, text[index..]);
    if Drops(rule, m, index) {
      assert text[index..index + 1] == [text[index]];
    } else {
      MatchDecodes(tok, text, index);
    }
  }

  /** Round trip of the `encode` loop from any position. */
  lemma {:induction false} EncodeFromRoundTrip(tok: Tokenizer, text: seq<byte>, index: nat, rule: DropRule)
    requires TrieAgreesWithTable(tok) && IdsBelowCount(tok)
    requires NUL !in text
    requires index <= |text|
    ensures Decode(tok, EncodeFrom(tok.root, text, index, rule)) == Some(text[index..])
    decreases |text| - index
  {
    if index == |text| {
      assert text[index..] == [];
    } else {
      var e := EncodeStep(tok.root, text, index, rule);
      var rest := EncodeFrom(tok.root, text, e.next, rule);
      assert EncodeFrom(tok.root, text, index, rule) == [e.id] + rest;
      assert Decode(tok, [e.id] + rest) == Some(text[index..]) by {
        var head, tail := text[index..e.next], text[e.next..];
        assert DecodeId(tok, e.id) == Some(head) by {
          StepDecodes(tok, text, index, rule);
        }
        assert Decode(tok, rest) == Some(tail) by {
          EncodeFromRoundTrip(tok, text, e.next, rule);
        }
        DecodeConsSome(tok, e.id, head, rest, tail);
        assert head + tail == text[index..];
      }
    }
  }

  /** Decoding one more id at the front when both parts decode. */
  lemma DecodeConsSome(tok: Tokenizer, id: int, head: seq<byte>, ids: seq<int>, tail: seq<byte>)
    requires DecodeId(tok, id) == Some(head) && Decode(tok, ids) == Some(tail)
    ensures Decode(tok, [id] + ids) == Some(head + tail)
  {
    DecodeCons(tok, id, ids);
  }

  /** `decode(encode(text))` gives back the text up to its first NUL. */
  lemma EncodeDecodeRoundTrip(tok: Tokenizer, text: seq<byte>)
    requires TrieAgreesWithTable(tok) && IdsBelowCount(tok)
    ensures Decode(tok, Encode(tok, text)) == Some(UpToNul(text))
  {
    EncodeFromRoundTrip(tok, UpToNul(text), 0, AsWritten);
  }

  /** Registering a fresh id of at least 256 keeps the trie and the table in
      agreement. */
  lemma AddTokenKeepsAgreement(tok: Tokenizer, literal: seq<byte>, id: int)
    requires Addable(literal, id)
    requires TrieAgreesWithTable(tok)
    requires RAW_BYTE_IDS <= id && id !in tok.idx2token
    ensures TrieAgreesWithTable(AddToken(tok, literal, id))
  {
    var r := AddToken(tok, literal, id);
    if ParsePythonLiteral(literal, MAX_TOKEN_LENGTH).Decoded? {
      var bytes := ParsePythonLiteral(literal, MAX_TOKEN_LENGTH).bytes;
      forall k | |k| > 0 && Lookup(r.root, k) != NO_VALUE
        ensures RAW_BYTE_IDS <= Lookup(r.root, k)
        ensures Lookup(r.root, k) in r.idx2token && r.idx2token[Lookup(r.root, k)] == k
      {
        InsertLookup(tok.root, bytes, id, k);
      }
    }
  }

  /** One vocabulary entry as the loader hands it to `addToken`. */
  datatype Entry = Entry(id: int, literal: seq<byte>)

  /** The tokenizer after `addToken` has been called on each entry in turn. */
  function Load(entries: seq<Entry>): (tok: Tokenizer)
    requires forall i :: 0 <= i < |entries| ==> Addable(entries[i].literal, entries[i].id)
  {
    if entries == [] then CreateTokenizer()
    else
      var last := entries[|entries| - 1];
      AddToken(Load(entries[..|entries| - 1]), last.literal, last.id)
  }

  /** A vocabulary with distinct ids, all at least 256, loads into a state
      where the trie and the table agree, and the table only holds ids of
      the entries. */
  lemma {:induction false} LoadAgrees(entries: seq<Entry>)
    requires forall i :: 0 <= i < |entries| ==> Addable(entries[i].literal, entries[i].id)
    requires forall i :: 0 <= i < |entries| ==> RAW_BYTE_IDS <= entries[i].id
    requires forall i, j :: 0 <= i < j < |entries| ==> entries[i].id != entries[j].id
    ensures TrieAgreesWithTable(Load(entries))
    ensures forall id :: id in Load(entries).idx2token ==> exists i :: 0 <= i < |entries| && entries[i].id == id
  {
    if entries != [] {
      var init := entries[..|entries| - 1];
      var last := entries[|entries| - 1];
      LoadAgrees(init);
      var tok := Load(init);
      assert last.id !in tok.idx2token;
      AddTokenKeepsAgreement(tok, last.literal, last.id);
      forall id | id in Load(entries).idx2token
        ensures exists i :: 0 <= i < |entries| && entries[i].id == id
      {
        if id != last.id {
          var i :| 0 <= i < |init| && init[i].id == id;
          assert entries[i].id == id;
        } else {
          assert entries[|entries| - 1].id == id;
        }
      }
    }
  }
}
