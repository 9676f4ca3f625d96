/** The token-literal decoder of `rwkv_tokenizer.c`: `parse_hex` and
    `parse_python_literal`.

    A literal is the memory the C code reads from `literal` on: the bytes
    `lit`, then a NUL at position |lit|. The loop stops only at the quote or
    a full buffer, so a NUL inside `lit` is decoded as an ordinary byte, as
    the C code does. The C loop reads `*literal` before it
    checks the output length, and a `\x` escape reads both digit positions
    before it checks either, so some literals make it read past the
    terminator; that is undefined in C and the model reports it as
    `OutOfBounds` instead of inventing bytes. */
module Literal {
  import opened Wrappers
  import opened Bytes

  /** The size of the stack buffer `addToken` decodes into. */
  const MAX_TOKEN_LENGTH: nat := 256

  const BACKSLASH: byte := '\\' as int
  const SINGLE_QUOTE: byte := '\'' as int
  const DOUBLE_QUOTE: byte := '"' as int
  const BYTE_PREFIX: byte := 'b' as int
  const LOWER_X: byte := 'x' as int

  /** The hexadecimal digits, in value order. */
  const LOWER_HEX: string := "0123456789abcdef"
  const UPPER_HEX: string := "0123456789ABCDEF"

  /** `parse_hex`: the value of a hexadecimal digit, or -1. */
  function ParseHex(c: byte): (r: int)
    ensures -1 <= r < 16
  {
    if '0' as int <= c <= '9' as int then c - '0' as int
    else if 'a' as int <= c <= 'f' as int then c - 'a' as int + 10
    else if 'A' as int <= c <= 'F' as int then c - 'A' as int + 10
    else -1
  }

  /** `parse_hex` agrees with the digit tables: each digit, in either case,
      gives its position, and exactly the other bytes give -1. */
  lemma ParseHexDigits(c: byte)
    ensures forall i :: 0 <= i < 16 ==> ParseHex(LOWER_HEX[i] as int) == i && ParseHex(UPPER_HEX[i] as int) == i
    ensures ParseHex(c) == -1 <==> (forall i :: 0 <= i < 16 ==> c != LOWER_HEX[i] as int && c != UPPER_HEX[i] as int)
  {
    assert forall i :: 0 <= i < 16 ==> LOWER_HEX[i] as int == if i < 10 then '0' as int + i else 'a' as int + i - 10;
    assert forall i :: 0 <= i < 16 ==> UPPER_HEX[i] as int == if i < 10 then '0' as int + i else 'A' as int + i - 10;
    if ParseHex(c) != -1 {
      var i := ParseHex(c);
      if 'A' as int <= c <= 'F' as int {
        assert c == UPPER_HEX[i] as int;
      } else {
        assert c == LOWER_HEX[i] as int;
      }
    }
  }

  /** The one-character escapes `\n \r \t \\ \' \"` and the byte each
      stands for. */
  function SimpleEscape(e: byte): (r: Option<byte>)
  {
    if e == 'n' as int then Some('\n' as int)
    else if e == 'r' as int then Some('\r' as int)
    else if e == 't' as int then Some('\t' as int)
    else if e == BACKSLASH then Some(BACKSLASH)
    else if e == SINGLE_QUOTE then Some(SINGLE_QUOTE)
    else if e == DOUBLE_QUOTE then Some(DOUBLE_QUOTE)
    else None
  }

  /** What `parse_python_literal` does with a literal. */
  datatype Parsed =
    | Decoded(bytes: seq<byte>)   // the return value is |bytes|
    | BadEscape                   // the return value is -1
    | OutOfBounds                 // C reads past the terminator: undefined

  /** The byte at position `i` of the C string: the terminator at |lit|. */
  function At(lit: seq<byte>, i: nat): (c: byte)
    requires i <= |lit|
  {
    if i < |lit| then lit[i] else NUL
  }

  /** One round of the loop body after the quote and length checks: the
      byte that the character at `pos` stands for and the position after it,
      or how decoding fails there. */
  datatype Step = Byte(value: byte, next: nat) | Stop(failure: Parsed)

  /** Decode the (possibly escaped) character at `pos`. */
  function DecodeChar(lit: seq<byte>, pos: nat): (s: Step)
    requires pos <= |lit|
    ensures s.Byte? ==> pos < s.next
    ensures s.Stop? ==> !s.failure.Decoded?
  {
    if At(lit, pos) == BACKSLASH then
      var e := At(lit, pos + 1);
      if SimpleEscape(e).Some? then Byte(SimpleEscape(e).value, pos + 2)
      else if e == LOWER_X then
        if pos + 3 > |lit| then Stop(OutOfBounds)
        else
          var hi := ParseHex(At(lit, pos + 2));
          var lo := ParseHex(At(lit, pos + 3));
          if hi != -1 && lo != -1 then Byte(hi * 16 + lo, pos + 4)
          else Stop(BadEscape)
      else Stop(BadEscape)
    else Byte(At(lit, pos), pos + 1)
  }

  /** The decoding loop from position `pos`, with `out` decoded so far: stop
      at the closing quote or once `outLen` bytes are out, otherwise decode
      one character and go on. */
  function Scan(lit: seq<byte>, quote: byte, pos: nat, out: seq<byte>, outLen: nat): (r: Parsed)
    requires |out| <= outLen
    ensures r.Decoded? ==> |r.bytes| <= outLen
    decreases outLen - |out|
  {
    if pos > |lit| then OutOfBounds
    else if At(lit, pos) == quote || |out| == outLen then Decoded(out)
    else
      match DecodeChar(lit, pos)
      case Byte(b, next) => Scan(lit, quote, next, out + [b], outLen)
      case Stop(failure) => failure
  }

  /** `parse_python_literal(literal, out, out_len)`: skip an optional `b`,
      take the next character as the quote, and decode up to the first
      unescaped quote or until `outLen` bytes are out, whichever is first. */
  function ParsePythonLiteral(lit: seq<byte>, outLen: nat): (r: Parsed)
    ensures r.Decoded? ==> |r.bytes| <= outLen
  {
    var start := if At(lit, 0) == BYTE_PREFIX then 1 else 0;
    Scan(lit, At(lit, start), start + 1, [], outLen)
  }

  /** What a buffer of `n` bytes keeps of `bytes`. */
  function Truncate(bytes: seq<byte>, n: nat): (r: seq<byte>)
  {
    if |bytes| <= n then bytes else bytes[..n]
  }

  /** The outcome when decoding meets a bad escape after producing `bytes`:
      the loop stops silently if the buffer filled up first, and fails
      otherwise. */
  function FailureAfter(bytes: seq<byte>, outLen: nat): (r: Parsed)
  {
    if |bytes| < outLen then BadEscape else Decoded(bytes[..outLen])
  }

  /** A quote character the decoder can also see escaped. */
  predicate IsQuote(q: byte)
  {
    q == SINGLE_QUOTE || q == DOUBLE_QUOTE
  }

  /** The lower-case hexadecimal digit for `n`. */
  function HexDigit(n: int): (d: byte)
    requires 0 <= n < 16
  {
    if n < 10 then '0' as int + n else 'a' as int + n - 10
  }

  lemma HexDigitParses(n: int)
    requires 0 <= n < 16
    ensures ParseHex(HexDigit(n)) == n
  {
  }

  /** How a byte is written inside a literal quoted with `q`: the backslash,
      the quote and the NUL byte must be escaped, newline, carriage return
      and tab use their named escapes, other control and non-ASCII bytes use
      `\xHH`, and everything else stands for itself. */
  function EscapeByte(c: byte, q: byte): (e: seq<byte>)
  {
    if c == BACKSLASH || c == q then [BACKSLASH, c]
    else if c == '\n' as int then [BACKSLASH, 'n' as int]
    else if c == '\r' as int then [BACKSLASH, 'r' as int]
    else if c == '\t' as int then [BACKSLASH, 't' as int]
    else if c < 32 || c >= 127 then [BACKSLASH, LOWER_X, HexDigit(c / 16), HexDigit(c % 16)]
    else [c]
  }

  /** The body of a literal that stands for `bytes`. */
  function Escape(bytes: seq<byte>, q: byte): (body: seq<byte>)
  {
    if bytes == [] then [] else EscapeByte(bytes[0], q) + Escape(bytes[1..], q)
  }

  /** `s` occurs in `lit` starting at `pos`. */
  ghost predicate Occurs(lit: seq<byte>, pos: nat, s: seq<byte>)
    decreases s
  {
    s == [] || (pos < |lit| && lit[pos] == s[0] && Occurs(lit, pos + 1, s[1..]))
  }

  lemma {:induction false} OccursIndex(lit: seq<byte>, pos: nat, s: seq<byte>, i: nat)
    requires Occurs(lit, pos, s) && i < |s|
    ensures pos + i < |lit| && lit[pos + i] == s[i]
    decreases s
  {
    if i > 0 {
      OccursIndex(lit, pos + 1, s[1..], i - 1);
    }
  }

  lemma {:induction false} OccursSplit(lit: seq<byte>, pos: nat, a: seq<byte>, b: seq<byte>)
    requires Occurs(lit, pos, a + b)
    ensures Occurs(lit, pos, a) && Occurs(lit, pos + |a|, b)
    decreases a
  {
    if a == [] {
      assert a + b == b;
    } else {
      assert (a + b)[0] == a[0];
      assert (a + b)[1..] == a[1..] + b;
      OccursSplit(lit, pos + 1, a[1..], b);
    }
  }

  lemma {:induction false} OccursIn(pre: seq<byte>, s: seq<byte>, post: seq<byte>)
    ensures Occurs(pre + s + post, |pre|, s)
    decreases s
  {
    if s != [] {
      assert (pre + s + post)[|pre|] == s[0];
      assert (pre + [s[0]]) + s[1..] + post == pre + s + post;
      OccursIn(pre + [s[0]], s[1..], post);
    }
  }

  /** The escaped form of `c` decodes to `c`, and does not start with the
      quote. */
  lemma DecodeEscapeByte(lit: seq<byte>, pos: nat, c: byte, q: byte)
    requires IsQuote(q)
    requires Occurs(lit, pos, EscapeByte(c, q))
    ensures pos < |lit| && lit[pos] != q
    ensures DecodeChar(lit, pos) == Byte(c, pos + |EscapeByte(c, q)|)
  {
    var e := EscapeByte(c, q);
    OccursIndex(lit, pos, e, 0);
    if |e| > 1 {
      OccursIndex(lit, pos, e, 1);
    }
    if |e| == 4 {
      OccursIndex(lit, pos, e, 2);
      OccursIndex(lit, pos, e, 3);
      HexDigitParses(c / 16);
      HexDigitParses(c % 16);
      assert At(lit, pos + 2) == HexDigit(c / 16) && At(lit, pos + 3) == HexDigit(c % 16);
      assert SimpleEscape(LOWER_X).None?;
    }
  }

  /** From `pos`, the literal holds characters (none of them the closing
      quote) that decode one by one to `bytes` and end at `end`. */
  ghost predicate DecodesTo(lit: seq<byte>, q: byte, pos: nat, bytes: seq<byte>, end: nat)
    decreases bytes
  {
    if bytes == [] then pos == end
    else
      && pos <= |lit| && At(lit, pos) != q
      && DecodeChar(lit, pos).Byte? && DecodeChar(lit, pos).value == bytes[0]
      && DecodesTo(lit, q, DecodeChar(lit, pos).next, bytes[1..], end)
  }

  /** The loop consumes such characters whole when they fit in the buffer. */
  lemma {:induction false} ScanDecodes(lit: seq<byte>, q: byte, pos: nat, bytes: seq<byte>, end: nat, out: seq<byte>, outLen: nat)
    requires DecodesTo(lit, q, pos, bytes, end)
    requires |out| + |bytes| <= outLen
    ensures Scan(lit, q, pos, out, outLen) == Scan(lit, q, end, out + bytes, outLen)
    decreases bytes
  {
    if bytes == [] {
      assert out + bytes == out;
    } else {
      var next := DecodeChar(lit, pos).next;
      ScanDecodes(lit, q, next, bytes[1..], end, out + [bytes[0]], outLen);
      assert out + [bytes[0]] + bytes[1..] == out + bytes;
    }
  }

  /** The loop stops silently once `outLen` bytes are out. */
  lemma {:induction false} ScanDecodesTruncated(lit: seq<byte>, q: byte, pos: nat, bytes: seq<byte>, end: nat, out: seq<byte>, outLen: nat)
    requires DecodesTo(lit, q, pos, bytes, end)
    requires |out| <= outLen < |out| + |bytes|
    ensures Scan(lit, q, pos, out, outLen) == Decoded((out + bytes)[..outLen])
    decreases bytes
  {
    if |out| == outLen {
      assert (out + bytes)[..outLen] == out;
    } else {
      var next := DecodeChar(lit, pos).next;
      ScanDecodesTruncated(lit, q, next, bytes[1..], end, out + [bytes[0]], outLen);
      assert out + [bytes[0]] + bytes[1..] == out + bytes;
    }
  }

  /** An escaped body decodes, character by character, to the bytes it
      stands for. */
  lemma {:induction false} EscapeDecodes(lit: seq<byte>, pos: nat, bytes: seq<byte>, q: byte)
    requires IsQuote(q)
    requires Occurs(lit, pos, Escape(bytes, q))
    ensures DecodesTo(lit, q, pos, bytes, pos + |Escape(bytes, q)|)
    decreases bytes
  {
    if bytes != [] {
      var e := EscapeByte(bytes[0], q);
      var rest := Escape(bytes[1..], q);
      assert Escape(bytes, q) == e + rest;
      OccursSplit(lit, pos, e, rest);
      DecodeEscapeByte(lit, pos, bytes[0], q);
      EscapeDecodes(lit, pos + |e|, bytes[1..], q);
      assert pos + |Escape(bytes, q)| == pos + |e| + |rest|;
    }
  }

  /** A literal written as `'…'` or `b'…'` (or with double quotes) decodes
      to the bytes it stands for, truncated without error to `outLen`. */
  lemma ParseEscapedLiteral(bytes: seq<byte>, q: byte, bytePrefix: bool, outLen: nat)
    requires IsQuote(q)
    ensures var lit := (if bytePrefix then [BYTE_PREFIX] else []) + [q] + Escape(bytes, q) + [q];
            ParsePythonLiteral(lit, outLen) == Decoded(Truncate(bytes, outLen))
  {
    var pre := (if bytePrefix then [BYTE_PREFIX] else []) + [q];
    var body := Escape(bytes, q);
    var lit := pre + body + [q];
    var close := |pre| + |body|;
    assert ParsePythonLiteral(lit, outLen) == Scan(lit, q, |pre|, [], outLen) by {
      assert At(lit, 0) == BYTE_PREFIX <==> bytePrefix;
      assert At(lit, |pre| - 1) == q;
    }
    OccursIn(pre, body, [q]);
    EscapeDecodes(lit, |pre|, bytes, q);
    if |bytes| <= outLen {
      ScanDecodes(lit, q, |pre|, bytes, close, [], outLen);
      assert [] + bytes == bytes;
      assert Scan(lit, q, close, bytes, outLen) == Decoded(bytes) by {
        assert At(lit, close) == q;
      }
    } else {
      ScanDecodesTruncated(lit, q, |pre|, bytes, close, [], outLen);
      assert [] + bytes == bytes;
    }
  }

  /** A literal opening with a quote (no `b` prefix) is scanned from just
      after it. */
  lemma ParseQuoted(lit: seq<byte>, q: byte, outLen: nat)
    requires IsQuote(q)
    requires |lit| > 0 && lit[0] == q
    ensures ParsePythonLiteral(lit, outLen) == Scan(lit, q, 1, [], outLen)
  {
    assert At(lit, 0) == q;
  }

  /** The loop reaches a character that cannot be decoded after `bytes`
      are out: it fails there, unless the buffer filled up first. */
  lemma ScanFailsAt(lit: seq<byte>, q: byte, bytes: seq<byte>, pos: nat, outLen: nat)
    requires DecodesTo(lit, q, 1, bytes, pos)
    requires pos < |lit| && lit[pos] == BACKSLASH && BACKSLASH != q
    requires DecodeChar(lit, pos) == Stop(BadEscape)
    ensures Scan(lit, q, 1, [], outLen) == FailureAfter(bytes, outLen)
  {
    if |bytes| <= outLen {
      ScanDecodes(lit, q, 1, bytes, pos, [], outLen);
      assert [] + bytes == bytes;
      if |bytes| == outLen {
        assert bytes[..outLen] == bytes;
      }
    } else {
      ScanDecodesTruncated(lit, q, 1, bytes, pos, [], outLen);
      assert [] + bytes == bytes;
    }
  }

  /** An escape other than `\n \r \t \\ \' \" \xHH` makes the whole literal
      fail, unless `outLen` bytes are out before the decoder reaches it. */
  lemma UnknownEscapeFails(bytes: seq<byte>, q: byte, e: byte, tail: seq<byte>, outLen: nat)
    requires IsQuote(q)
    requires SimpleEscape(e).None? && e != LOWER_X
    ensures ParsePythonLiteral([q] + Escape(bytes, q) + [BACKSLASH, e] + tail, outLen) == FailureAfter(bytes, outLen)
  {
    var pre := [q] + Escape(bytes, q);
    var post := [BACKSLASH, e] + tail;
    var lit := pre + post;
    assert [q] + Escape(bytes, q) + [BACKSLASH, e] + tail == lit;
    assert Scan(lit, q, 1, [], outLen) == FailureAfter(bytes, outLen) by {
      var pos := |pre|;
      assert DecodeChar(lit, pos) == Stop(BadEscape) by {
        assert lit[pos] == BACKSLASH && lit[pos + 1] == e;
        assert At(lit, pos) == BACKSLASH && At(lit, pos + 1) == e;
      }
      assert lit == [q] + Escape(bytes, q) + post;
      OccursIn([q], Escape(bytes, q), post);
      EscapeDecodes(lit, 1, bytes, q);
      ScanFailsAt(lit, q, bytes, pos, outLen);
    }
    ParseQuoted(lit, q, outLen);
  }

  /** A `\x` escape with a non-hexadecimal digit makes the literal fail,
      unless `outLen` bytes are out before the decoder reaches it. */
  lemma BadHexEscapeFails(bytes: seq<byte>, q: byte, hi: byte, lo: byte, tail: seq<byte>, outLen: nat)
    requires IsQuote(q)
    requires ParseHex(hi) == -1 || ParseHex(lo) == -1
    ensures ParsePythonLiteral([q] + Escape(bytes, q) + [BACKSLASH, LOWER_X, hi, lo] + tail, outLen) == FailureAfter(bytes, outLen)
  {
    var pre := [q] + Escape(bytes, q);
    var post := [BACKSLASH, LOWER_X, hi, lo] + tail;
    var lit := pre + post;
    assert [q] + Escape(bytes, q) + [BACKSLASH, LOWER_X, hi, lo] + tail == lit;
    assert Scan(lit, q, 1, [], outLen) == FailureAfter(bytes, outLen) by {
      var pos := |pre|;
      assert DecodeChar(lit, pos) == Stop(BadEscape) by {
        assert lit[pos] == BACKSLASH && lit[pos + 1] == LOWER_X && lit[pos + 2] == hi && lit[pos + 3] == lo;
        DecodeBadHex(lit, pos);
      }
      assert lit == [q] + Escape(bytes, q) + post;
      OccursIn([q], Escape(bytes, q), post);
      EscapeDecodes(lit, 1, bytes, q);
      ScanFailsAt(lit, q, bytes, pos, outLen);
    }
    ParseQuoted(lit, q, outLen);
  }

  /** A `\x` escape whose digits do not both parse is a decoding failure. */
  lemma DecodeBadHex(lit: seq<byte>, pos: nat)
    requires pos + 3 < |lit| && lit[pos] == BACKSLASH && lit[pos + 1] == LOWER_X
    requires ParseHex(lit[pos + 2]) == -1 || ParseHex(lit[pos + 3]) == -1
    ensures DecodeChar(lit, pos) == Stop(BadEscape)
  {
    assert At(lit, pos) == BACKSLASH && At(lit, pos + 1) == LOWER_X;
    assert At(lit, pos + 2) == lit[pos + 2] && At(lit, pos + 3) == lit[pos + 3];
    assert SimpleEscape(LOWER_X).None?;
  }
}
