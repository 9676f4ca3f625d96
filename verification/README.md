# RWKV byte tokenizer — Dafny model

A model of the core of `rwkv_tokenizer.c`: the 256-ary byte trie
(`insertTrie`, `findLongest`), the token-literal decoder (`parse_hex`,
`parse_python_literal`), the tokenizer state (`createTokenizer`,
`addToken`) and the greedy longest-match `encode` with its all-or-nothing
`decode`.

Modules, one per component of the C file:

- `Wrappers` (`wrappers.dfy`): `Option`, standing for a possibly-NULL result.
- `Bytes` (`bytes.dfy`): `byte` (an `unsigned char`, 0..255) and `UpToNul`,
  the content of a NUL-terminated string (what `strlen` measures).
- `Trie` (`trie.dfy`): `TrieNode(children: map<byte, TrieNode>, value: int)`,
  with -1 as the "no value" sentinel. Its meaning is `Lookup` (follow the key's
  path; -1 if the path is missing) and the abstract map `Abs`. Insertion is
  `Insert`. `findLongest` is modelled twice: `Longest`, a recursive reference
  definition, and `FindLongest`, the C loop. The C loop is proved equal to the
  reference.
- `Literal` (`literal.dfy`): `ParseHex` and `ParsePythonLiteral`. A literal is
  a C string: its bytes, then the terminator. Literals whose decoding would read
  past the terminator give `OutOfBounds`. In C this is undefined behaviour.
  `Escape` is the inverse used to state the round trip.
- `Tokenization` (`tokenizer.dfy`): `Tokenizer(root, idx2token, numTokens)`,
  `CreateTokenizer`, `AddToken`, `Encode`/`EncodeBuffer`, `Decode`/`DecodeBuffer`
  and the round-trip theorems. `Load` applies `AddToken` to a sequence of
  vocabulary entries.
- `EncodeFinding` (`finding.dfy`): the `encode` comparison discussed under
  Findings.
- `DecodeFinding` (`decode_finding.dfy`): the `decode` guard discussed under
  Findings, and the round trip for a whole loaded vocabulary.

The functions are the reference definitions. The methods `FindLongest`,
`EncodeBuffer` and `DecodeBuffer` follow the C loops, and their contracts tie
them to those definitions. `Encode` and `Decode` are pure functions of the
tokenizer value. So calling `encode` twice on an unchanged tokenizer gives the
same output by construction, and no separate lemma states it.

Where the code's behaviour is surprising, the model follows the code:

- `encode` drops a match when its length equals the current *absolute*
  position, not only when nothing matched (see Findings).
- `parse_python_literal` silently truncates at `out_len`. It does not fail when
  the decoded literal is longer than the buffer.
- `decode` accepts an id ≥ 256 only if it is below `num_tokens`, the count of
  successful `addToken` calls, and a table entry exists for it (see Findings).
- A literal is decoded up to its closing quote; a NUL byte inside it is
  decoded like any other byte, as the C loop does.

`Tokenization.EncodeDecodeRoundTrip` proves `decode(encode(t))` is `t` up to
its first NUL for any tokenizer state in which every registered key has an id
of at least 256 whose table entry holds that key, and every stored id is below
`num_tokens`. No condition on NUL bytes inside tokens is needed, because every
match lies inside the NUL-free part of the text. Loading a vocabulary of
distinct ids of at least 256 gives the first condition (`LoadAgrees`) but can
never give the second once some literal parses: some stored id is then at
or above `num_tokens` (`DecodeFinding.CountGuardRejectsStoredId`). Only an
empty table, from an empty vocabulary or one where no literal parses, meets
it. With the guard compared against
the table's capacity `MAX_TOKENS`, the round trip holds for every such
vocabulary (`DecodeFinding.LoadedRoundTrip`).

## Model

| member | source | states |
|---|---|---|
| Bytes.UpToNul | rwkv_tokenizer.c:147 | the string `strlen` sees is a prefix of the buffer, contains no NUL, and is followed by a NUL unless it is the whole buffer |
| Trie.CreateTrieNode | rwkv_tokenizer.c:22-30 | a fresh node has no children and carries the sentinel -1 |
| Trie.Insert | rwkv_tokenizer.c:32-42 | after `insertTrie` the key maps to the new value, and no existing child edge of the root is removed |
| Trie.InsertLookup | rwkv_tokenizer.c:32-42 | after insertion the key maps to the new value (last write wins), and every other key, including the newly created intermediate nodes, keeps its old value (-1 if new) |
| Trie.InsertAbs | rwkv_tokenizer.c:32-42 | on the abstract map, inserting a value other than -1 is exactly the map update `Abs(t)[key := v]` |
| Trie.InsertPaths | rwkv_tokenizer.c:32-42 | after insertion the existing paths are exactly the old paths plus every prefix of the key: missing nodes on the key's path are created and nothing else |
| Trie.Longest | rwkv_tokenizer.c:44-58 | the reference longest match: its length fits in the data, and it is 0 exactly when the value is -1 (nothing matched) |
| Trie.LongestIsLongestMatch | rwkv_tokenizer.c:44-58 | the result is the longest non-empty registered prefix of the data with its value, or (-1, 0) when there is none; the root's value is never consulted |
| Trie.FindLongest | rwkv_tokenizer.c:44-58 | the C walk (follow edges while they exist, remember the last node with a value) meets the longest-prefix contract, `0 <= endIndex <= data_length`, and equals the reference `Longest` |
| Literal.ParseHex | rwkv_tokenizer.c:71-76 | the result is -1 or a digit value 0..15 |
| Literal.ParseHexDigits | rwkv_tokenizer.c:71-76 | each of 0-9, a-f and A-F gives its value, and every other byte gives -1 |
| Literal.DecodeChar | rwkv_tokenizer.c:91-119 | one character of the body: a decoded byte always advances past at least one input byte, and a failure is never a successful decode |
| Literal.Scan | rwkv_tokenizer.c:90-120 | the decoding loop, stopping at the quote or when `out_len` bytes are out: a successful result never holds more than `out_len` bytes |
| Literal.ParsePythonLiteral | rwkv_tokenizer.c:78-123 | a successful decode produces at most `out_len` bytes |
| Literal.ParseEscapedLiteral | rwkv_tokenizer.c:78-123 | a literal `'…'` or `"…"`, with or without the `b` prefix, whose body escapes backslash, quote, NUL and control bytes (`\n \r \t \\ \' \" \xHH`) decodes to exactly the escaped bytes, stopping at the closing quote, or to their first `out_len` bytes without error |
| Literal.UnknownEscapeFails | rwkv_tokenizer.c:90-115 | after any correctly escaped bytes, a backslash followed by anything other than `n r t \ ' " x` makes the whole decode fail with -1 when fewer than `out_len` bytes precede it; otherwise the loop stops on the full buffer before reaching it and returns those `out_len` bytes |
| Literal.BadHexEscapeFails | rwkv_tokenizer.c:90-111 | after any correctly escaped bytes, a `\x` escape with a non-hexadecimal digit in either position makes the decode fail with -1 when fewer than `out_len` bytes precede it; otherwise the loop stops on the full buffer first |
| Literal.EscapeDecodes | rwkv_tokenizer.c:90-120 | the escaped form of any byte sequence, read from any position of a literal, decodes character by character back to exactly that sequence, and none of its characters is read as the closing quote |
| Tokenization.CreateTokenizer | rwkv_tokenizer.c:60-69 | a new tokenizer maps every key to -1, has an empty table and a count of 0 |
| Tokenization.AddToken | rwkv_tokenizer.c:125-144 | on a parse failure the tokenizer is unchanged; on success the abstract trie is updated with bytes ↦ id, `idx2token[id]` becomes the bytes, and `num_tokens` grows by exactly one, even for a repeated id |
| Tokenization.AddTokenKeepsAgreement | rwkv_tokenizer.c:134-141 | registering a fresh id ≥ 256 keeps every registered key's id pointing at a table entry holding exactly that key |
| Tokenization.Encode | rwkv_tokenizer.c:146-167 | the output has at most `strlen(text)` ids, and is empty for empty text |
| Tokenization.EncodeStopsAtNul | rwkv_tokenizer.c:147 | bytes after the first NUL of the text do not affect `encode` |
| Tokenization.EncodeFrom | rwkv_tokenizer.c:154-165 | the `encode` loop from any position emits at most one id per remaining byte of the text |
| Tokenization.EncodeBuffer | rwkv_tokenizer.c:146-167 | the C loop, with `findLongest` on `text + index`, produces the reference encoding and fits the `length`-sized buffer |
| Tokenization.EncodeFromIds | rwkv_tokenizer.c:155-165 | every emitted id is a raw byte value 0..255 or the value of a registered non-empty token |
| Tokenization.EncodeStep | rwkv_tokenizer.c:155-165 | every round of the loop consumes at least one byte and never moves past the end of the text, so `encode` stops after at most `length` rounds |
| Tokenization.StepDecodes | rwkv_tokenizer.c:155-165 | when the trie and the table agree, the id one round emits (raw byte or match value) decodes to exactly the bytes that round consumed |
| Tokenization.DecodeId | rwkv_tokenizer.c:173-176 | an id below 256 decodes to the single byte `(char)id`; an id of 256 or more decodes exactly when it is below `num_tokens` and stored, and then to the stored bytes before their first NUL (the part `strlen` sees), so a stored token containing 0x00 comes back cut at that byte |
| Tokenization.Decode | rwkv_tokenizer.c:169-200 | `decode` succeeds exactly when every id is below 256 or is below `num_tokens` with a stored token |
| Tokenization.DecodeBuffer | rwkv_tokenizer.c:169-200 | the two-pass C code (validate and measure, then copy) returns NULL exactly when the reference fails, and otherwise the reference concatenation, whose length equals the length computed in the first pass |
| Tokenization.DecodeAppend | rwkv_tokenizer.c:188-197 | decoding is compositional: a concatenation of id sequences decodes to the concatenation of the decodings, and fails if either part fails |
| Tokenization.DecodeRawBytes | rwkv_tokenizer.c:173-174 | ids below 256 decode to themselves whatever the table holds, so a registered small id is shadowed |
| Tokenization.EncodeDecodeRoundTrip | rwkv_tokenizer.c:146-200 | when registered keys have fresh ids ≥ 256 pointing at their own bytes and all stored ids are below `num_tokens`, `decode(encode(text))` is the text up to its first NUL |
| Tokenization.LoadAgrees | rwkv_tokenizer.c:125-144 | a vocabulary with distinct ids ≥ 256 loads into a state where trie and table agree, and the table only holds the entries' ids |
| EncodeFinding.AsWrittenSkipsToken | rwkv_tokenizer.c:158 | with "a" registered as 300, the as-written `encode` of "xa" yields [120, 97], ignoring the token; the corrected loop yields [120, 300] |
| EncodeFinding.GreedyTakesLongest | rwkv_tokenizer.c:155-165 | with the greedy rule (drop a match only when nothing matched), wherever some registered token is a prefix of the rest of the text, the loop emits the value of the longest one and skips past it |
| EncodeFinding.GreedyRoundTrip | rwkv_tokenizer.c:155-165 | the corrected `encode` round-trips through `decode` under the same conditions |
| DecodeFinding.DecodeWithinCapacity | rwkv_tokenizer.c:173-176 | with the guard `id < MAX_TOKENS`, decoding succeeds exactly when every id is below 256 or is below the capacity with a stored token |
| DecodeFinding.LoadCount | rwkv_tokenizer.c:125-144 | with distinct ids, `num_tokens` equals the number of stored tokens after loading a vocabulary |
| DecodeFinding.CountGuardRejectsStoredId | rwkv_tokenizer.c:175 | for a vocabulary of distinct ids ≥ 256 in which some literal parses, `decode` as written rejects the id of some stored token |
| DecodeFinding.SingleTokenVocabulary | rwkv_tokenizer.c:146-200 | after loading the single entry `256 'a'`, `encode("a")` is [256], `decode([256])` as written is NULL, and the capacity guard decodes it to "a" |
| DecodeFinding.LoadedRoundTrip | rwkv_tokenizer.c:125-200 | with the capacity guard, every vocabulary of distinct ids ≥ 256 satisfies `decode(encode(text))` = the text up to its first NUL |

## Left out

- `main` (file reading, `fgets`/`strtok`/`atoi` line splitting, quote stripping, the demo text): loader and driver glue around the core.
- Diagnostics and `exit(1)` on allocation failure: allocation is treated as always succeeding. This includes `malloc(0)` in `encode` for empty text, which may return NULL on some platforms.
- `freeTrieNode`, `freeTokenizer` and buffer handling (`malloc`, `memcpy`): values replace owned memory.
- `token2idx`: written by `addToken` but never read.
- The unused `is_byte_string` flag of `parse_python_literal`: it has no effect.
- Tokenization.AddToken: requires `0 <= id < MAX_TOKENS`, because other ids index `idx2token` out of bounds in C.
- Tokenization.AddToken: requires a literal whose decoding stays inside the string (not `OutOfBounds`), because the C loop otherwise reads past the terminator. Examples are a missing closing quote and a `\x` at the end.
- Tokenization.Decode: an id with `MAX_TOKENS <= id < num_tokens` reads `idx2token` out of bounds in C. That only happens after more than `MAX_TOKENS` successful `addToken` calls. The model treats such an id as having no stored token.
- Tokenization.AddToken: `num_tokens` is an unbounded integer. The 32-bit overflow would need 2^31 calls.
- Integer widths: `int length = strlen(text)` in `encode` and `int total_length` in `decode` are unbounded integers in the model; a text or output of 2^31 bytes or more would overflow them in C.
- Tokenization.DecodeId: `(char)id` for a negative id is implementation-defined in C; the model fixes it to two's-complement truncation, `id` modulo 256.
- The NUL terminator `decode` writes after its output: the model returns the `total_length` bytes. A caller that reads the result as a C string sees it only up to an embedded NUL (for example from id 0).

## Findings

| source | as written | input that shows it | evidently intended | confidence | as-written member | corrected member |
|---|---|---|---|---|---|---|
| rwkv_tokenizer.c:158 | `if (endIndex == index \|\| id == -1)` compares the match length, which is relative to `text + index`, with the absolute position `index` | tokens {"a" ↦ 300}, text "xa": at index 1 the match "a" has length 1 == index, so `encode` emits [120, 97] instead of [120, 300] | drop the match only when nothing matched (`endIndex == 0`, equivalently `id == -1`), giving greedy longest match at every position | high (not executed) | EncodeFinding.AsWrittenSkipsToken | EncodeFinding.GreedyTakesLongest |
| rwkv_tokenizer.c:175 | `id < tokenizer->num_tokens` compares an id with the count of successful `addToken` calls, although the guard protects the index into `idx2token[MAX_TOKENS]` and ids are chosen by the vocabulary | the one-entry vocabulary `256 'a'`: `encode("a")` gives [256], and `decode([256])` returns NULL because 256 is not below `num_tokens` = 1 | accept every id below `MAX_TOKENS` that has a stored token, so that any vocabulary of distinct ids ≥ 256 round-trips | medium (not executed) | DecodeFinding.SingleTokenVocabulary | DecodeFinding.LoadedRoundTrip |

The rest of the model keeps the comparisons as written (`Tokenization.Encode`
uses `AsWritten`, and `Tokenization.Decode` keeps `id < num_tokens`), because
that is the behaviour of the code. The capacity guard is
`DecodeFinding.DecodeWithinCapacity`. The corrected
loop (`EncodeFinding.EncodeGreedy`, `AsIntended`) satisfies the same round trip
(`EncodeFinding.GreedyRoundTrip`). The as-written loop also round-trips: a
dropped match emits one raw byte, which decodes to itself, and encoding
resumes one byte later.
