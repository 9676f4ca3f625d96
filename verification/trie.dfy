/** The 256-ary byte trie of `rwkv_tokenizer.c`: `TrieNode`, `createTrieNode`,
    `insertTrie` and `findLongest`.

    A node's children array of 256 pointers becomes a map from byte to child
    (a missing key is a NULL pointer), and the `value` field keeps the C
    sentinel: -1 means "no token ends here". */
module Trie {
  import opened Wrappers
  import opened Bytes

  /** The "no value" sentinel of `TrieNode.value`. */
  const NO_VALUE: int := -1

  datatype TrieNode = TrieNode(children: map<byte, TrieNode>, value: int)

  /** `createTrieNode`: no children, no value. */
  function CreateTrieNode(): (n: TrieNode)
    ensures forall c: byte :: c !in n.children
    ensures n.value == NO_VALUE
  {
    TrieNode(map[], NO_VALUE)
  }

  /** The node reached from `t` by following the bytes of `path`, if every
      edge exists. */
  function Descend(t: TrieNode, path: seq<byte>): (r: Option<TrieNode>)
  {
    if path == [] then Some(t)
    else if path[0] in t.children then Descend(t.children[path[0]], path[1..])
    else None
  }

  /** The value registered for exactly `key`, or NO_VALUE. This is the
      meaning of a trie: a partial map from byte strings to ids. */
  function Lookup(t: TrieNode, key: seq<byte>): (v: int)
  {
    match Descend(t, key)
    case Some(n) => n.value
    case None => NO_VALUE
  }

  /** The abstract map a trie stands for. */
  ghost function Abs(t: TrieNode): (m: imap<seq<byte>, int>)
  {
    imap k | Lookup(t, k) != NO_VALUE :: Lookup(t, k)
  }

  lemma {:induction false} DescendAppend(t: TrieNode, p: seq<byte>, q: seq<byte>)
    ensures Descend(t, p + q) ==
              match Descend(t, p)
              case None => None
              case Some(n) => Descend(n, q)
  {
    if p == [] {
      assert p + q == q;
    } else {
      assert (p + q)[0] == p[0];
      assert (p + q)[1..] == p[1..] + q;
      if p[0] in t.children {
        DescendAppend(t.children[p[0]], p[1..], q);
      }
    }
  }

  /** One more step from the node reached by `p`. */
  lemma DescendStep(t: TrieNode, p: seq<byte>, c: byte)
    ensures Descend(t, p + [c]) ==
              match Descend(t, p)
              case None => None
              case Some(n) => if c in n.children then Some(n.children[c]) else None
  {
    DescendAppend(t, p, [c]);
  }

  /** `insertTrie`: walk the path of `key`, creating missing nodes, and set
      the value of the last node. */
  function Insert(t: TrieNode, key: seq<byte>, v: int): (r: TrieNode)
    ensures Lookup(r, key) == v
    ensures forall c :: c in t.children ==> c in r.children
    decreases key
  {
    if key == [] then TrieNode(t.children, v)
    else
      var c := key[0];
      var child := if c in t.children then t.children[c] else CreateTrieNode();
      TrieNode(t.children[c := Insert(child, key[1..], v)], t.value)
  }

  /** After an insertion the key maps to the new value (last write wins) and
      every other key keeps its value; in particular the nodes created on
      the way carry no value. */
  lemma {:induction false} InsertLookup(t: TrieNode, key: seq<byte>, v: int, k: seq<byte>)
    ensures Lookup(Insert(t, key, v), k) == if k == key then v else Lookup(t, k)
    decreases key
  {
    if key != [] && k != [] {
      var c := key[0];
      var child := if c in t.children then t.children[c] else CreateTrieNode();
      if k[0] == c {
        InsertLookup(child, key[1..], v, k[1..]);
        if c !in t.children {
          EmptyLookup(k[1..]);
        }
        if k[1..] == key[1..] {
          assert k == key by {
            assert k == [k[0]] + k[1..];
            assert key == [key[0]] + key[1..];
          }
        }
      }
    }
  }

  /** A fresh node maps every key to NO_VALUE. */
  lemma EmptyLookup(k: seq<byte>)
    ensures Lookup(CreateTrieNode(), k) == NO_VALUE
  {
  }

  /** In terms of the abstract map: inserting a real value is a map update. */
  lemma InsertAbs(t: TrieNode, key: seq<byte>, v: int)
    requires v != NO_VALUE
    ensures Abs(Insert(t, key, v)) == Abs(t)[key := v]
  {
    forall k
      ensures Lookup(Insert(t, key, v), k) == if k == key then v else Lookup(t, k)
    {
      InsertLookup(t, key, v, k);
    }
  }

  /** The paths of the new trie are the old paths plus the prefixes of the
      key: insertion walks the key's path and creates what is missing. */
  lemma {:induction false} InsertPaths(t: TrieNode, key: seq<byte>, v: int, p: seq<byte>)
    ensures Descend(Insert(t, key, v), p).Some? <==> Descend(t, p).Some? || p <= key
    decreases key
  {
    if key == [] {
      assert Descend(Insert(t, key, v), p).Some? <==> Descend(t, p).Some? by {
        if p != [] {
          assert Insert(t, key, v).children == t.children;
        }
      }
    } else if p != [] {
      var c := key[0];
      var child := if c in t.children then t.children[c] else CreateTrieNode();
      if p[0] == c {
        InsertPaths(child, key[1..], v, p[1..]);
        assert p <= key <==> p[1..] <= key[1..];
        if c !in t.children {
          assert Descend(child, p[1..]).Some? ==> p[1..] == [];
        }
      } else {
        assert !(p <= key);
      }
    }
  }

  /** The result of `findLongest`: the value and `*endIndex`. */
  datatype Match = Match(value: int, len: nat)

  /** The abstract contract of `findLongest`: `m` is the longest non-empty
      registered prefix of `data` with its value, or (NO_VALUE, 0) when
      there is none. The root's own value (the empty key) is never
      consulted. */
  ghost predicate IsLongestMatch(t: TrieNode, data: seq<byte>, m: Match)
  {
    && m.len <= |data|
    && (m.len == 0 <==> m.value == NO_VALUE)
    && (m.len > 0 ==> Lookup(t, data[..m.len]) == m.value)
    && (forall n {:trigger data[..n]} :: m.len < n <= |data| && n > 0 ==> Lookup(t, data[..n]) == NO_VALUE)
  }

  /** Longest-prefix lookup, as a recursive function over the data. */
  function Longest(t: TrieNode, data: seq<byte>): (m: Match)
    ensures m.len <= |data|
    ensures m.len == 0 <==> m.value == NO_VALUE
    decreases data
  {
    if |data| > 0 && data[0] in t.children then
      var child := t.children[data[0]];
      var rest := Longest(child, data[1..]);
      if rest.len > 0 then Match(rest.value, rest.len + 1)
      else if child.value != NO_VALUE then Match(child.value, 1)
      else Match(NO_VALUE, 0)
    else Match(NO_VALUE, 0)
  }

  /** `Longest` meets the contract of `findLongest`. */
  lemma {:induction false} LongestIsLongestMatch(t: TrieNode, data: seq<byte>)
    ensures IsLongestMatch(t, data, Longest(t, data))
    decreases data
  {
    if |data| > 0 && data[0] in t.children {
      LongestIsLongestMatch(t.children[data[0]], data[1..]);
      LongestShift(t, data);
    } else {
      MissingEdge(t, data);
    }
  }

  /** Looking up a non-empty prefix of `data` goes through the child for
      `data[0]`. */
  lemma LongestShift(t: TrieNode, data: seq<byte>)
    requires |data| > 0 && data[0] in t.children
    ensures forall n {:trigger data[..n]} :: 0 < n <= |data| ==>
              Lookup(t, data[..n]) == Lookup(t.children[data[0]], data[1..][..n - 1])
  {
    forall n | 0 < n <= |data|
      ensures Lookup(t, data[..n]) == Lookup(t.children[data[0]], data[1..][..n - 1])
    {
      assert data[..n][0] == data[0];
      assert data[..n][1..] == data[1..][..n - 1];
    }
  }

  /** Without an edge for the first byte, no non-empty prefix is registered. */
  lemma MissingEdge(t: TrieNode, data: seq<byte>)
    requires |data| == 0 || data[0] !in t.children
    ensures forall n {:trigger data[..n]} :: 0 < n <= |data| ==> Lookup(t, data[..n]) == NO_VALUE
  {
    forall n | 0 < n <= |data|
      ensures Lookup(t, data[..n]) == NO_VALUE
    {
      assert data[..n][0] == data[0];
    }
  }

  /** The contract of `findLongest` determines its result. */
  lemma LongestMatchUnique(t: TrieNode, data: seq<byte>, m1: Match, m2: Match)
    requires IsLongestMatch(t, data, m1) && IsLongestMatch(t, data, m2)
    ensures m1 == m2
  {
  }

  /** `findLongest`, following the C loop: walk while an edge exists and
      remember the last node with a value. */
  method FindLongest(root: TrieNode, data: seq<byte>) returns (value: int, endIndex: nat)
    ensures IsLongestMatch(root, data, Match(value, endIndex))
    ensures Match(value, endIndex) == Longest(root, data)
  {
    var node := root;
    var index := 0;
    endIndex := 0;
    value := NO_VALUE;
    while index < |data| && data[index] in node.children
      invariant 0 <= index <= |data|
      invariant Descend(root, data[..index]) == Some(node)
      invariant endIndex <= index
      invariant endIndex == 0 <==> value == NO_VALUE
      invariant endIndex > 0 ==> Lookup(root, data[..endIndex]) == value
      invariant forall n {:trigger data[..n]} :: endIndex < n <= index ==> Lookup(root, data[..n]) == NO_VALUE
      decreases |data| - index
    {
      DescendStep(root, data[..index], data[index]);
      assert data[..index + 1] == data[..index] + [data[index]];
      node := node.children[data[index]];
      index := index + 1;
      if node.value != NO_VALUE {
        endIndex := index;
        value := node.value;
      }
    }
    forall n | index < n <= |data|
      ensures Lookup(root, data[..n]) == NO_VALUE
    {
      DescendAppend(root, data[..index], data[index..n]);
      assert data[..n] == data[..index] + data[index..n];
      assert data[index..n][0] == data[index];
    }
    LongestIsLongestMatch(root, data);
    LongestMatchUnique(root, data, Match(value, endIndex), Longest(root, data));
  }
}
