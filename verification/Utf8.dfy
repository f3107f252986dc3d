// `str.encode()`: UTF-8 as in section 3 of RFC 3629.

module Utf8 {
  import opened Framing

  function EncodeChar(c: char): (bytes: seq<byte>)
    ensures 1 <= |bytes| <= 4
  {
    var n := c as int;
    if n < 0x80 then [n as byte]
    else if n < 0x800 then [(0xC0 + n / 64) as byte, Tail(n)]
    else if n < 0x1_0000 then
      [(0xE0 + n / 4096) as byte, Tail(n / 64), Tail(n)]
    else
      [(0xF0 + n / 262144) as byte, Tail(n / 4096), Tail(n / 64), Tail(n)]
  }

  function Tail(n: nat): byte { (0x80 + n % 64) as byte }

  function Encode(s: string): seq<byte> {
    if s == "" then [] else EncodeChar(s[0]) + Encode(s[1..])
  }

  function CodePoint(bytes: seq<byte>): int
    requires 1 <= |bytes| <= 4
  {
    var n := bytes[0] as int;
    if |bytes| == 1 then n
    else if |bytes| == 2 then (n - 0xC0) * 64 + Low(bytes[1])
    else if |bytes| == 3 then ((n - 0xE0) * 64 + Low(bytes[1])) * 64 + Low(bytes[2])
    else (((n - 0xF0) * 64 + Low(bytes[1])) * 64 + Low(bytes[2])) * 64 + Low(bytes[3])
  }

  function Low(b: byte): int { b as int - 0x80 }

  // A byte that continues a character: six payload bits behind 10.
  predicate Continues(b: byte) { 0x80 <= b as int <= 0xBF }

  // The four rows of the table in section 3 of RFC 3629: the lead byte's range,
  // the continuation bytes, and the code point that they carry.
  lemma EncodeCharExactly(c: char)
    ensures var n, b := c as int, EncodeChar(c);
            && (n <= 0x7F ==> |b| == 1 && b[0] as int == n)
            && (0x80 <= n <= 0x7FF ==>
                && |b| == 2 && 0xC2 <= b[0] as int <= 0xDF && Continues(b[1])
                && n == (b[0] as int - 0xC0) * 0x40 + (b[1] as int - 0x80))
            && (0x800 <= n <= 0xFFFF ==>
                && |b| == 3 && 0xE0 <= b[0] as int <= 0xEF && Continues(b[1]) && Continues(b[2])
                && n == (b[0] as int - 0xE0) * 0x1000 + (b[1] as int - 0x80) * 0x40
                        + (b[2] as int - 0x80))
            && (0x1_0000 <= n ==>
                && |b| == 4 && 0xF0 <= b[0] as int <= 0xF4
                && Continues(b[1]) && Continues(b[2]) && Continues(b[3])
                && n == (b[0] as int - 0xF0) * 0x4_0000 + (b[1] as int - 0x80) * 0x1000
                        + (b[2] as int - 0x80) * 0x40 + (b[3] as int - 0x80))
  {
    var n := c as int;
    assert n / 4096 == n / 64 / 64 && n / 262144 == n / 64 / 64 / 64;
  }

  lemma EncodeCharRoundTrip(c: char)
    ensures CodePoint(EncodeChar(c)) == c as int
  {
    var n := c as int;
    assert n / 4096 == n / 64 / 64 && n / 262144 == n / 64 / 64 / 64;
  }

  // The first byte tells how many bytes the character takes.
  lemma LeadGivesWidth(c: char)
    ensures var lead := EncodeChar(c)[0] as int;
            |EncodeChar(c)| == if lead < 0x80 then 1 else if lead < 0xE0 then 2
                               else if lead < 0xF0 then 3 else 4
  {
  }

  lemma LeadDetermines(c: char, d: char, x: seq<byte>, y: seq<byte>)
    requires EncodeChar(c) + x == EncodeChar(d) + y
    ensures c == d && x == y
  {
    var l, r := EncodeChar(c), EncodeChar(d);
    var all := l + x;
    assert all[0] == l[0] == r[0];
    LeadGivesWidth(c);
    LeadGivesWidth(d);
    assert all[..|l|] == l && all[..|r|] == r;
    assert all[|l|..] == x && all[|r|..] == y;
    EncodeCharRoundTrip(c);
    EncodeCharRoundTrip(d);
  }

  // A text is encoded character by character, from left to right.
  lemma {:induction false} EncodeConcat(s: string, t: string)
    ensures Encode(s + t) == Encode(s) + Encode(t)
  {
    if s == "" {
      assert s + t == t;
    } else {
      EncodeConcat(s[1..], t);
      assert (s + t)[1..] == s[1..] + t && (s + t)[0] == s[0];
      var first, rest := EncodeChar(s[0]), Encode(s[1..]);
      assert first + (rest + Encode(t)) == first + rest + Encode(t);
    }
  }

  lemma {:induction false} EncodeInjective(s: string, t: string)
    requires Encode(s) == Encode(t)
    ensures s == t
  {
    if s != "" && t != "" {
      LeadDetermines(s[0], t[0], Encode(s[1..]), Encode(t[1..]));
      EncodeInjective(s[1..], t[1..]);
      assert s == [s[0]] + s[1..] && t == [t[0]] + t[1..];
    }
  }
}
