// The byte stream that the migration fingerprint hashes: every file is fed as
// an 8-byte big-endian length followed by its encoded name, then the same for
// its content.

module Framing {
  import opened Basics

  newtype byte = b: int | 0 <= b < 256

  // len(x).to_bytes(8, "big") raises from this value on.
  const LENGTH_LIMIT: nat := 0x1_0000_0000_0000_0000

  function BigEndian(n: nat, width: nat): (bytes: seq<byte>)
    ensures |bytes| == width
  {
    if width == 0 then []
    else BigEndian(n / 256, width - 1) + [(n % 256) as byte]
  }

  function FromBigEndian(bytes: seq<byte>): nat {
    if |bytes| == 0 then 0
    else FromBigEndian(bytes[..|bytes| - 1]) * 256 + bytes[|bytes| - 1] as nat
  }

  function Power256(width: nat): (p: nat)
    ensures p > 0
  {
    if width == 0 then 1 else 256 * Power256(width - 1)
  }

  // Big-endian round trip, for every number that fits the width.
  lemma {:induction false} BigEndianRoundTrip(n: nat, width: nat)
    requires n < Power256(width)
    ensures FromBigEndian(BigEndian(n, width)) == n
  {
    if width > 0 {
      BigEndianRoundTrip(n / 256, width - 1);
      var bytes := BigEndian(n, width);
      assert bytes[..width - 1] == BigEndian(n / 256, width - 1);
    }
  }

  // Byte i, counted from the most significant, is the i-th digit to base 256.
  lemma {:induction false} BigEndianByte(n: nat, width: nat, i: nat)
    requires i < width
    ensures BigEndian(n, width)[i] as int == n / Power256(width - 1 - i) % 256
  {
    if i < width - 1 {
      BigEndianByte(n / 256, width - 1, i);
      QuotientTwice(n, Power256(width - 2 - i));
    }
  }

  lemma QuotientTwice(n: nat, p: nat)
    requires p > 0
    ensures n / 256 / p == n / (256 * p)
  {
    var k, r := n / 256, n % 256;
    var q, t := k / p, k % p;
    assert k == q * p + t && n == 256 * k + r;
    assert n == q * (256 * p) + (256 * t + r);
    assert 256 * t + r < 256 * p;
    QuotientIs(n, 256 * p, q, 256 * t + r);
  }

  lemma QuotientIs(n: nat, d: nat, q: nat, r: nat)
    requires n == q * d + r && r < d
    ensures n / d == q
  {
    var other := n / d;
    assert other > q ==> other * d >= (q + 1) * d;
    assert other < q ==> (other + 1) * d <= q * d;
  }

  lemma LengthLimitIsEightBytes()
    ensures Power256(8) == LENGTH_LIMIT
  {
    assert Power256(4) == 0x1_0000_0000;
    assert Power256(8) == 256 * (256 * (256 * (256 * Power256(4))));
  }

  datatype Entry = Entry(name: seq<byte>, content: seq<byte>)

  predicate Encodable(e: Entry) {
    |e.name| < LENGTH_LIMIT && |e.content| < LENGTH_LIMIT
  }

  function Frame(payload: seq<byte>): seq<byte> {
    BigEndian(|payload|, 8) + payload
  }

  function EntryFrames(e: Entry): seq<byte> {
    Frame(e.name) + Frame(e.content)
  }

  // A number in eight bytes, most significant first.
  ghost predicate IsEightBytes(bytes: seq<byte>, n: nat) {
    |bytes| == 8 && forall i :: 0 <= i < 8 ==> bytes[i] as int == n / Power256(7 - i) % 256
  }

  // What is fed for one file: the length of its name, the name, the length of
  // its content, and the content.
  lemma EntryLayout(e: Entry)
    ensures var bytes, n := EntryFrames(e), |e.name|;
            && |bytes| == 16 + n + |e.content|
            && IsEightBytes(bytes[..8], n) && bytes[8..8 + n] == e.name
            && IsEightBytes(bytes[8 + n..16 + n], |e.content|) && bytes[16 + n..] == e.content
  {
    forall i | 0 <= i < 8
      ensures BigEndian(|e.name|, 8)[i] as int == |e.name| / Power256(7 - i) % 256
      ensures BigEndian(|e.content|, 8)[i] as int == |e.content| / Power256(7 - i) % 256
    {
      BigEndianByte(|e.name|, 8, i);
      BigEndianByte(|e.content|, 8, i);
    }
    FrameLayout(e, BigEndian(|e.name|, 8), BigEndian(|e.content|, 8));
  }

  lemma FrameLayout(e: Entry, a: seq<byte>, b: seq<byte>)
    requires a == BigEndian(|e.name|, 8) && b == BigEndian(|e.content|, 8)
    ensures var bytes, n := EntryFrames(e), |e.name|;
            && |bytes| == 16 + n + |e.content|
            && bytes[..8] == a && bytes[8..8 + n] == e.name
            && bytes[8 + n..16 + n] == b && bytes[16 + n..] == e.content
  {
    assert EntryFrames(e) == a + e.name + b + e.content;
  }

  function Stream(entries: seq<Entry>): seq<byte> {
    Joined(EntryFrames, entries)
  }

  // The independent reader: takes one frame off the front of a stream.
  function TakeFrame(bytes: seq<byte>): Option<(seq<byte>, seq<byte>)> {
    if |bytes| < 8 then None
    else
      var n := FromBigEndian(bytes[..8]);
      if |bytes| < 8 + n then None else Some((bytes[8..8 + n], bytes[8 + n..]))
  }

  function Decode(bytes: seq<byte>): Option<seq<Entry>>
    decreases |bytes|
  {
    if bytes == [] then Some([])
    else
      match TakeFrame(bytes)
      case None => None
      case Some((name, rest)) =>
        match TakeFrame(rest)
        case None => None
        case Some((content, tail)) =>
          match Decode(tail)
          case None => None
          case Some(entries) => Some([Entry(name, content)] + entries)
  }

  lemma TakeFrameRoundTrip(payload: seq<byte>, rest: seq<byte>)
    requires |payload| < LENGTH_LIMIT
    ensures TakeFrame(Frame(payload) + rest) == Some((payload, rest))
  {
    LengthLimitIsEightBytes();
    BigEndianRoundTrip(|payload|, 8);
    var bytes := Frame(payload) + rest;
    assert bytes[..8] == BigEndian(|payload|, 8);
    assert bytes[8..8 + |payload|] == payload;
    assert bytes[8 + |payload|..] == rest;
  }

  // One entry is two frames and the reader goes on behind them.
  lemma DecodeStep(bytes: seq<byte>, name: seq<byte>, rest: seq<byte>,
                   content: seq<byte>, tail: seq<byte>)
    requires TakeFrame(bytes) == Some((name, rest)) && TakeFrame(rest) == Some((content, tail))
    requires Decode(tail).Some?
    ensures Decode(bytes) == Some([Entry(name, content)] + Decode(tail).value)
  {
  }

  lemma DecodeEntry(e: Entry, rest: seq<byte>)
    requires Encodable(e) && Decode(rest).Some?
    ensures Decode(EntryFrames(e) + rest) == Some([e] + Decode(rest).value)
  {
    var bytes, second := EntryFrames(e) + rest, Frame(e.content) + rest;
    assert bytes == Frame(e.name) + second;
    TakeFrameRoundTrip(e.name, second);
    TakeFrameRoundTrip(e.content, rest);
    DecodeStep(bytes, e.name, second, e.content, rest);
  }

  // A reader that takes every part off the front takes all of them.
  lemma {:induction false} DecodeJoined(part: Entry -> seq<byte>, entries: seq<Entry>)
    requires forall e, rest :: e in entries && Decode(rest).Some? ==>
               Decode(part(e) + rest) == Some([e] + Decode(rest).value)
    ensures Decode(Joined(part, entries)) == Some(entries)
  {
    if entries != [] {
      JoinedFront(part, entries);
      DecodeJoined(part, entries[1..]);
      assert entries == [entries[0]] + entries[1..];
    }
  }

  // Decoding what was fed to the hash gives back the exact list of entries.
  lemma DecodeStream(entries: seq<Entry>)
    requires forall e :: e in entries ==> Encodable(e)
    ensures Decode(Stream(entries)) == Some(entries)
  {
    forall e, rest | e in entries && Decode(rest).Some?
      ensures Decode(EntryFrames(e) + rest) == Some([e] + Decode(rest).value)
    {
      DecodeEntry(e, rest);
    }
    DecodeJoined(EntryFrames, entries);
  }

  // Different entry lists never feed the hash the same bytes.
  lemma StreamInjective(a: seq<Entry>, b: seq<Entry>)
    requires forall e :: e in a ==> Encodable(e)
    requires forall e :: e in b ==> Encodable(e)
    requires Stream(a) == Stream(b)
    ensures a == b
  {
    DecodeStream(a);
    DecodeStream(b);
  }
}
