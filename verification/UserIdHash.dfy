/** The opaque per-question hash that stands for a user in `question_user`.

    HMAC-SHA256 (section 2 of RFC 2104) is a foreign call: it enters as the
    function `mac`, already keyed. Where distinctness matters, a theorem assumes
    that `mac` is collision-free on the set of messages in play, not on all strings. */
module UserIdHash {
  import opened Decimal

  type byte = b: int | 0 <= b < 256

  type Mac = string -> seq<byte>

  function Message(userId: string, questionId: int): string {
    userId + ":" + Print(questionId)
  }

  function HexDigit(d: int): (c: char)
    requires 0 <= d < 16
    ensures IsHexDigit(c)
  {
    "0123456789abcdef"[d]
  }

  predicate IsHexDigit(c: char) {
    IsDigit(c) || 'a' <= c <= 'f'
  }

  function HexByte(b: byte): string {
    [HexDigit(b / 16), HexDigit(b % 16)]
  }

  function Hex(bytes: seq<byte>): (s: string)
    ensures |s| == 2 * |bytes|
    ensures forall i :: 0 <= i < |s| ==> IsHexDigit(s[i])
  {
    if bytes == [] then "" else Hex(bytes[..|bytes| - 1]) + HexByte(bytes[|bytes| - 1])
  }

  function HexValue(c: char): (d: int)
    requires IsHexDigit(c)
    ensures 0 <= d < 16
  {
    if IsDigit(c) then c as int - '0' as int else c as int - 'a' as int + 10
  }

  /** The bytes that a lower-case hex text stands for. */
  function ReadHex(s: string): (bytes: seq<int>)
    requires forall i :: 0 <= i < |s| ==> IsHexDigit(s[i])
    ensures |bytes| == |s| / 2
    ensures forall i :: 0 <= i < |bytes| ==> bytes[i] == 16 * HexValue(s[2 * i]) + HexValue(s[2 * i + 1])
  {
    seq(|s| / 2, i requires 0 <= i < |s| / 2 => 16 * HexValue(s[2 * i]) + HexValue(s[2 * i + 1]))
  }

  lemma HexDigitValue(d: int)
    requires 0 <= d < 16
    ensures HexValue(HexDigit(d)) == d
  {
    var digits := "0123456789abcdef";
    assert forall i :: 0 <= i < 10 ==> digits[i] as int == '0' as int + i;
    assert forall i :: 10 <= i < 16 ==> digits[i] as int == 'a' as int + i - 10;
  }

  lemma HexByteValue(b: byte)
    ensures 16 * HexValue(HexByte(b)[0]) + HexValue(HexByte(b)[1]) == b
  {
    HexDigitValue(b / 16);
    HexDigitValue(b % 16);
  }

  lemma {:induction false} HexAt(bytes: seq<byte>, i: nat)
    requires i < |bytes|
    ensures Hex(bytes)[2 * i] == HexByte(bytes[i])[0] && Hex(bytes)[2 * i + 1] == HexByte(bytes[i])[1]
  {
    if i < |bytes| - 1 {
      HexAt(bytes[..|bytes| - 1], i);
    }
  }

  /** Two hex digits a byte, the high one first: the text reads back as the digest. */
  lemma HexReadsBack(bytes: seq<byte>)
    ensures ReadHex(Hex(bytes)) == bytes
  {
    forall i | 0 <= i < |bytes| ensures ReadHex(Hex(bytes))[i] == bytes[i] {
      HexAt(bytes, i);
      HexByteValue(bytes[i]);
    }
  }

  function HashOf(mac: Mac, userId: string, questionId: int): string {
    Hex(mac(Message(userId, questionId)))
  }

  /** `UserIdHasher`: holds the keyed MAC and appends one hex pair per digest byte. */
  class UserIdHasher {
    const mac: Mac

    constructor (mac: Mac)
      ensures this.mac == mac
    {
      this.mac := mac;
    }

    method Hash(userId: string, questionId: int) returns (out: string)
      ensures out == HashOf(mac, userId, questionId)
    {
      var message := userId + ":" + Print(questionId);
      var digest := mac(message);
      out := "";
      for i := 0 to |digest|
        invariant out == Hex(digest[..i])
      {
        assert digest[..i + 1][..i] == digest[..i];
        out := out + HexByte(digest[i]);
      }
      assert digest[..|digest|] == digest;
    }
  }

  /** The stored text reads back as the MAC of the user id, a colon and the question id. */
  lemma HashReadsBack(mac: Mac, userId: string, questionId: int)
    ensures ReadHex(HashOf(mac, userId, questionId)) == mac(userId + ":" + Print(questionId))
  {
    HexReadsBack(mac(Message(userId, questionId)));
  }

  /** The last colon separates the two parts, whatever the user id contains. */
  lemma MessageInjective(u1: string, q1: int, u2: string, q2: int)
    requires Message(u1, q1) == Message(u2, q2)
    ensures u1 == u2 && q1 == q2
  {
    PrintAlphabet(q1);
    PrintAlphabet(q2);
    var m := Message(u1, q1);
    NoColonAfter(u1, Print(q1));
    NoColonAfter(u2, Print(q2));
    assert m[|u1|] == ':' && m[|u2|] == ':';
    assert u1 == m[..|u1|] == u2;
    assert Print(q1) == m[|u1| + 1..] == Print(q2);
    PrintInjective(q1, q2);
  }

  lemma NoColonAfter(head: string, tail: string)
    requires ':' !in tail
    ensures forall j :: |head| < j < |head + ":" + tail| ==> (head + ":" + tail)[j] != ':'
  {
    var m := head + ":" + tail;
    assert forall j :: |head| < j < |m| ==> m[j] == tail[j - |head| - 1];
  }

  lemma HexByteInjective(a: byte, b: byte)
    requires HexByte(a) == HexByte(b)
    ensures a == b
  {
    assert HexByte(a)[0] == HexByte(b)[0] && HexByte(a)[1] == HexByte(b)[1];
    HexDigitInjective(a / 16, b / 16);
    HexDigitInjective(a % 16, b % 16);
  }

  lemma HexDigitInjective(d: int, e: int)
    requires 0 <= d < 16 && 0 <= e < 16 && HexDigit(d) == HexDigit(e)
    ensures d == e
  {
    var digits := "0123456789abcdef";
    assert forall i, j :: 0 <= i < j < 16 ==> digits[i] != digits[j];
  }

  lemma {:induction false} HexInjective(xs: seq<byte>, ys: seq<byte>)
    requires Hex(xs) == Hex(ys)
    ensures xs == ys
  {
    if xs != [] {
      var n := |xs| - 1;
      assert |ys| == |xs|;
      var s := Hex(xs);
      assert s == Hex(xs[..n]) + HexByte(xs[n]) && s == Hex(ys[..n]) + HexByte(ys[n]);
      assert Hex(xs[..n]) == s[..2 * n] == Hex(ys[..n]);
      assert HexByte(xs[n]) == s[2 * n..] == HexByte(ys[n]);
      HexInjective(xs[..n], ys[..n]);
      HexByteInjective(xs[n], ys[n]);
      assert xs == xs[..n] + [xs[n]] && ys == ys[..n] + [ys[n]];
    }
  }

  ghost predicate CollisionFree(mac: Mac, messages: iset<string>) {
    forall m, n :: m in messages && n in messages && mac(m) == mac(n) ==> m == n
  }

  /** On the messages in play a stored hash names one user and one question. */
  lemma HashInjective(mac: Mac, messages: iset<string>, u1: string, q1: int, u2: string, q2: int)
    requires CollisionFree(mac, messages)
    requires Message(u1, q1) in messages && Message(u2, q2) in messages
    requires HashOf(mac, u1, q1) == HashOf(mac, u2, q2)
    ensures u1 == u2 && q1 == q2
  {
    HexInjective(mac(Message(u1, q1)), mac(Message(u2, q2)));
    MessageInjective(u1, q1, u2, q2);
  }
}
