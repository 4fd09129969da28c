/**
 * The Wake-on-LAN payload of `Nas.wake_on_lan`: the configured MAC string is
 * stripped of its `:` and `-` separators, hex-decoded with the semantics of
 * Python's `bytes.fromhex`, and turned into the "Magic Packet": six 0xFF bytes
 * followed by the MAC bytes sixteen times.
 */
module WakeOnLan {
  import opened Wrappers

  type byte = b: int | 0 <= b < 0x100

  // ---------------------------------------------------------------------------
  // Separator removal: `mac.replace(":", "").replace("-", "")`
  // ---------------------------------------------------------------------------

  /** `s.replace([c], "")`: every occurrence of `c` removed, the rest kept in order. */
  function Strip(s: string, c: char): (r: string)
    ensures |r| <= |s|
    ensures forall x :: x in r <==> x in s && x != c
  {
    if s == [] then []
    else (if s[0] == c then [] else [s[0]]) + Strip(s[1..], c)
  }

  /** The MAC string with both kinds of separator removed, `:` first, then `-`. */
  function Normalise(mac: string): (r: string)
    ensures |r| <= |mac|
    ensures forall x :: x in r <==> x in mac && x != ':' && x != '-'
  {
    Strip(Strip(mac, ':'), '-')
  }

  lemma {:induction false} StripAppend(a: string, b: string, c: char)
    ensures Strip(a + b, c) == Strip(a, c) + Strip(b, c)
  {
    if a == [] {
      assert a + b == b;
    } else {
      assert (a + b)[1..] == a[1..] + b;
      StripAppend(a[1..], b, c);
    }
  }

  lemma {:induction false} StripAbsent(s: string, c: char)
    requires c !in s
    ensures Strip(s, c) == s
  {
    if s != [] {
      StripAbsent(s[1..], c);
    }
  }

  // ---------------------------------------------------------------------------
  // Hex decoding: `bytes.fromhex`
  // ---------------------------------------------------------------------------

  /** The ASCII whitespace `bytes.fromhex` skips between byte pairs: space, \t, \n, \v, \f, \r. */
  predicate IsAsciiSpace(c: char) {
    c == ' ' || 9 <= c as int <= 13
  }

  predicate IsHexDigit(c: char) {
    '0' <= c <= '9' || 'a' <= c <= 'f' || 'A' <= c <= 'F'
  }

  function DigitValue(c: char): (v: nat)
    requires IsHexDigit(c)
    ensures v < 16
  {
    if '0' <= c <= '9' then c as int - '0' as int
    else if 'a' <= c <= 'f' then c as int - 'a' as int + 10
    else c as int - 'A' as int + 10
  }

  /** The byte written by the two hex digits `hi` `lo`. */
  function PairValue(hi: char, lo: char): byte
    requires IsHexDigit(hi) && IsHexDigit(lo)
  {
    16 * DigitValue(hi) + DigitValue(lo)
  }

  /** Number of characters of `s` that are not skippable whitespace. */
  function CountNonSpace(s: string): nat {
    if s == [] then 0
    else (if IsAsciiSpace(s[0]) then 0 else 1) + CountNonSpace(s[1..])
  }

  /**
   * `bytes.fromhex(s)`: whitespace before a byte pair is skipped, each pair of
   * hex digits (either case) gives one byte, anything else (a non-hex character,
   * whitespace inside a pair, a lone trailing digit) raises; `None` is that error.
   */
  function FromHex(s: string): (r: Option<seq<byte>>)
    ensures r.Some? ==> 2 * |r.value| == CountNonSpace(s)
    decreases |s|
  {
    if s == [] then Some([])
    else if IsAsciiSpace(s[0]) then FromHex(s[1..])
    else if |s| >= 2 && IsHexDigit(s[0]) && IsHexDigit(s[1]) then
      assert CountNonSpace(s) == 2 + CountNonSpace(s[2..]) by {
        assert s[1..][1..] == s[2..];
      }
      match FromHex(s[2..])
      case None => None
      case Some(rest) => Some([PairValue(s[0], s[1])] + rest)
    else None
  }

  /**
   * Without whitespace, decoding succeeds exactly when the string is an even
   * number of hex digits, and byte k is the value of digits 2k and 2k+1.
   */
  lemma FromHexPlain(s: string)
    requires forall k :: 0 <= k < |s| ==> !IsAsciiSpace(s[k])
    ensures FromHex(s).Some? <==> |s| % 2 == 0 && forall k :: 0 <= k < |s| ==> IsHexDigit(s[k])
    ensures FromHex(s).Some? ==>
      |FromHex(s).value| * 2 == |s| &&
      forall k :: 0 <= k < |FromHex(s).value| ==>
        FromHex(s).value[k] == PairValue(s[2 * k], s[2 * k + 1])
  {
    PlainAccepted(s);
    if FromHex(s).Some? {
      PlainValues(s);
    }
  }

  lemma {:induction false} PlainAccepted(s: string)
    requires forall k :: 0 <= k < |s| ==> !IsAsciiSpace(s[k])
    ensures FromHex(s).Some? <==> |s| % 2 == 0 && forall k :: 0 <= k < |s| ==> IsHexDigit(s[k])
  {
    if |s| >= 2 && IsHexDigit(s[0]) && IsHexDigit(s[1]) {
      var t := s[2..];
      PlainAccepted(t);
      if |s| % 2 == 0 && forall k :: 0 <= k < |s| ==> IsHexDigit(s[k]) {
        assert forall k :: 0 <= k < |t| ==> IsHexDigit(t[k]) by {
          forall k | 0 <= k < |t| ensures IsHexDigit(t[k]) { assert t[k] == s[k + 2]; }
        }
      }
      if FromHex(s).Some? {
        forall k | 0 <= k < |s| ensures IsHexDigit(s[k]) {
          if k >= 2 { assert s[k] == t[k - 2]; }
        }
      }
    }
  }

  lemma {:induction false} PlainValues(s: string)
    requires forall k :: 0 <= k < |s| ==> !IsAsciiSpace(s[k]) && IsHexDigit(s[k])
    requires FromHex(s).Some?
    ensures |FromHex(s).value| * 2 == |s|
    ensures forall k :: 0 <= k < |FromHex(s).value| ==> FromHex(s).value[k] == PairValue(s[2 * k], s[2 * k + 1])
  {
    if s != [] {
      var t := s[2..];
      var r := FromHex(s).value;
      PlainValues(t);
      assert r == [PairValue(s[0], s[1])] + FromHex(t).value;
      forall k | 1 <= k < |r|
        ensures r[k] == PairValue(s[2 * k], s[2 * k + 1])
      {
        assert r[k] == FromHex(t).value[k - 1];
        assert t[2 * (k - 1)] == s[2 * k] && t[2 * (k - 1) + 1] == s[2 * k + 1];
      }
    }
  }

  /**
   * `bytes.fromhex` raises on a character that is neither a hex digit nor
   * whitespace, and on an odd number of hex digits.
   */
  lemma {:induction false} FromHexRejects(s: string)
    requires (exists k :: 0 <= k < |s| && !IsHexDigit(s[k]) && !IsAsciiSpace(s[k]))
          || CountNonSpace(s) % 2 == 1
    ensures FromHex(s).None?
  {
    if CountNonSpace(s) % 2 == 0 {
      var k :| 0 <= k < |s| && !IsHexDigit(s[k]) && !IsAsciiSpace(s[k]);
      ForeignRejected(s, k);
    }
  }

  lemma {:induction false} ForeignRejected(s: string, k: nat)
    requires k < |s| && !IsHexDigit(s[k]) && !IsAsciiSpace(s[k])
    ensures FromHex(s).None?
    decreases |s|
  {
    if k == 0 {
    } else if IsAsciiSpace(s[0]) {
      ForeignRejected(s[1..], k - 1);
    } else if |s| >= 2 && IsHexDigit(s[0]) && IsHexDigit(s[1]) {
      ForeignRejected(s[2..], k - 2);
    }
  }

  // ---------------------------------------------------------------------------
  // The magic packet: `b'\xff' * 6 + mac_bytes * 16`
  // ---------------------------------------------------------------------------

  /** `block * n` on bytes: the block, n times over. */
  function Repeat(block: seq<byte>, n: nat): (r: seq<byte>)
    ensures |r| == n * |block|
  {
    if n == 0 then [] else block + Repeat(block, n - 1)
  }

  /** Byte k of `block * n` is byte k mod |block| of the block. */
  lemma {:induction false} RepeatAt(block: seq<byte>, n: nat, k: nat)
    requires k < n * |block|
    ensures Repeat(block, n)[k] == block[k % |block|]
  {
    if k < |block| {
      ModUnique(k, |block|, 0, k);
    } else {
      RepeatAt(block, n - 1, k - |block|);
      ModShift(k, |block|);
    }
  }

  lemma ModShift(k: int, m: int)
    requires 0 < m <= k
    ensures k % m == (k - m) % m
  {
    var q := (k - m) / m;
    assert m * (q + 1) == m * q + m;
    ModUnique(k, m, q + 1, (k - m) % m);
  }

  lemma ModUnique(k: int, m: int, q: int, r: int)
    requires 0 <= r < m && k == m * q + r
    ensures k % m == r
  {
    var q' := k / m;
    assert m * q - m * q' == k % m - r;
    assert m * q - m * q' == m * (q - q');
    MultipleBounds(m, q - q');
  }

  /** A non-zero multiple of a positive `m` is at least `m` away from zero. */
  lemma MultipleBounds(m: int, d: int)
    requires 0 < m
    ensures d == 0 || m * d >= m || m * d <= -m
  {
  }

  /** The Wake-on-LAN payload for the decoded MAC bytes: six 0xFF sync bytes, then the MAC sixteen times. */
  function MagicPacket(mac: seq<byte>): (p: seq<byte>)
    ensures |p| == 6 + 16 * |mac|
    ensures forall k :: 0 <= k < 6 ==> p[k] == 0xFF
    ensures forall k :: 6 <= k < |p| ==> p[k] == mac[(k - 6) % |mac|]
  {
    var sync := Repeat([0xFF], 6);
    var body := Repeat(mac, 16);
    assert forall k :: 0 <= k < 6 ==> sync[k] == 0xFF by {
      forall k | 0 <= k < 6 ensures sync[k] == 0xFF {
        RepeatAt([0xFF], 6, k);
      }
    }
    assert forall k :: 0 <= k < |body| ==> body[k] == mac[k % |mac|] by {
      forall k | 0 <= k < |body| ensures body[k] == mac[k % |mac|] {
        RepeatAt(mac, 16, k);
      }
    }
    sync + body
  }

  /**
   * What `wake_on_lan` sends for the configured MAC string, or `None` where
   * `bytes.fromhex` raises `ValueError`.
   */
  function WakeOnLanPayload(mac: string): Option<seq<byte>> {
    match FromHex(Normalise(mac))
    case None => None
    case Some(bytes) => Some(MagicPacket(bytes))
  }

  /**
   * A character of the MAC string that is neither a hex digit, ASCII
   * whitespace nor a separator makes `wake_on_lan` raise.
   */
  lemma PayloadRejectsStray(mac: string, i: nat)
    requires i < |mac| && !IsHexDigit(mac[i]) && !IsAsciiSpace(mac[i]) && mac[i] != ':' && mac[i] != '-'
    ensures WakeOnLanPayload(mac).None?
  {
    var s := Normalise(mac);
    assert mac[i] in s;
    var k :| 0 <= k < |s| && s[k] == mac[i];
    ForeignRejected(s, k);
  }

  /**
   * A packet that is sent has six sync bytes and sixteen copies of one byte per
   * two digits left after the separators and whitespace are dropped.
   */
  lemma PayloadLength(mac: string)
    ensures WakeOnLanPayload(mac).Some? ==>
      |WakeOnLanPayload(mac).value| == 6 + 8 * CountNonSpace(Normalise(mac))
  {
    var s := Normalise(mac);
    if FromHex(s).Some? {
      var bytes := FromHex(s).value;
      assert 2 * |bytes| == CountNonSpace(s);
      assert |MagicPacket(bytes)| == 6 + 16 * |bytes|;
    }
  }

  /**
   * For a MAC string without whitespace (`AA:BB:...`, `AA-BB-...`, `AABB...`),
   * `wake_on_lan` sends exactly when the characters left after dropping the
   * separators are an even number of hex digits; then, for `n` digit pairs,
   * the packet has `6 + 16 * n` bytes and byte `6 + k` is the value of digit
   * pair `k mod n`.
   */
  lemma PayloadOfPlainMac(mac: string)
    requires forall k :: 0 <= k < |mac| ==> !IsAsciiSpace(mac[k])
    ensures var s := Normalise(mac);
      WakeOnLanPayload(mac).Some? <==> |s| % 2 == 0 && forall k :: 0 <= k < |s| ==> IsHexDigit(s[k])
    ensures var s := Normalise(mac);
      WakeOnLanPayload(mac).Some? ==>
        && |WakeOnLanPayload(mac).value| == 6 + 8 * |s|
        && forall k :: 0 <= k < 8 * |s| ==>
             WakeOnLanPayload(mac).value[6 + k] == PairValue(s[2 * (k % (|s| / 2))], s[2 * (k % (|s| / 2)) + 1])
  {
    var s := Normalise(mac);
    forall k | 0 <= k < |s| ensures !IsAsciiSpace(s[k]) {
      assert s[k] in mac;
    }
    FromHexPlain(s);
    if FromHex(s).Some? {
      var bytes := FromHex(s).value;
      var p := MagicPacket(bytes);
      assert |bytes| == |s| / 2;
      forall k | 0 <= k < 8 * |s|
        ensures p[6 + k] == PairValue(s[2 * (k % (|s| / 2))], s[2 * (k % (|s| / 2)) + 1])
      {
        assert p[6 + k] == bytes[k % |bytes|];
      }
    }
  }

  // ---------------------------------------------------------------------------
  // Round trip: a MAC written as separated hex pairs parses back to itself
  // ---------------------------------------------------------------------------

  function HexChar(v: nat): (c: char)
    requires v < 16
    ensures IsHexDigit(c) && DigitValue(c) == v
  {
    if v < 10 then ('0' as int + v) as char else ('A' as int + v - 10) as char
  }

  /** The two upper-case hex digits of a byte. */
  function HexPair(b: byte): string {
    [HexChar(b / 16), HexChar(b % 16)]
  }

  /** The bytes as upper-case hex pairs with nothing between them. */
  function HexString(bytes: seq<byte>): string {
    if bytes == [] then [] else HexPair(bytes[0]) + HexString(bytes[1..])
  }

  /** The bytes as upper-case hex pairs joined by `sep`, as in `AA:BB:CC:DD:EE:FF`. */
  function FormatMac(bytes: seq<byte>, sep: char): string {
    if bytes == [] then []
    else if |bytes| == 1 then HexPair(bytes[0])
    else HexPair(bytes[0]) + [sep] + FormatMac(bytes[1..], sep)
  }

  lemma {:induction false} HexStringDecodes(bytes: seq<byte>)
    ensures FromHex(HexString(bytes)) == Some(bytes)
  {
    if bytes != [] {
      var s := HexString(bytes);
      assert s[2..] == HexString(bytes[1..]);
      HexStringDecodes(bytes[1..]);
      assert PairValue(s[0], s[1]) == bytes[0];
      assert [bytes[0]] + bytes[1..] == bytes;
    }
  }

  lemma {:induction false} NormaliseFormatted(bytes: seq<byte>, sep: char)
    requires sep == ':' || sep == '-'
    ensures Normalise(FormatMac(bytes, sep)) == HexString(bytes)
  {
    if |bytes| == 1 {
      assert HexString(bytes) == HexPair(bytes[0]) + HexString([]);
      StripAbsent(HexPair(bytes[0]), ':');
      StripAbsent(HexPair(bytes[0]), '-');
    } else if |bytes| > 1 {
      var head, tail := HexPair(bytes[0]), FormatMac(bytes[1..], sep);
      NormaliseFormatted(bytes[1..], sep);
      StripAppend(head + [sep], tail, ':');
      StripAppend(head, [sep], ':');
      StripAbsent(head, ':');
      var mid := Strip(head + [sep], ':');
      StripAppend(mid, Strip(tail, ':'), '-');
      StripAppend(head, Strip([sep], ':'), '-');
      StripAbsent(head, '-');
    }
  }

  /** Formatting bytes as colon- or dash-separated hex and parsing them back is the identity. */
  lemma MacRoundTrip(bytes: seq<byte>, sep: char)
    requires sep == ':' || sep == '-'
    ensures FromHex(Normalise(FormatMac(bytes, sep))) == Some(bytes)
    ensures WakeOnLanPayload(FormatMac(bytes, sep)) == Some(MagicPacket(bytes))
  {
    NormaliseFormatted(bytes, sep);
    HexStringDecodes(bytes);
  }

  /** The last three bytes of the example MAC, written with colons. */
  lemma ExampleMacTail()
    ensures FormatMac([0xDD, 0xEE, 0xFF], ':') == "DD:EE:FF"
  {
    var tail: seq<byte> := [0xDD, 0xEE, 0xFF];
    assert HexPair(0xDD) == "DD" && HexPair(0xEE) == "EE" && HexPair(0xFF) == "FF";
    assert FormatMac(tail[2..], ':') == "FF";
    assert FormatMac(tail[1..], ':') == "EE:FF" by { assert tail[1..][1..] == tail[2..]; }
  }

  /** The last five bytes of the example MAC, written with colons. */
  lemma ExampleMacMiddle()
    ensures FormatMac([0xBB, 0xCC, 0xDD, 0xEE, 0xFF], ':') == "BB:CC:DD:EE:FF"
  {
    var middle: seq<byte> := [0xBB, 0xCC, 0xDD, 0xEE, 0xFF];
    ExampleMacTail();
    assert HexPair(0xBB) == "BB" && HexPair(0xCC) == "CC";
    assert middle[1..][1..] == [0xDD, 0xEE, 0xFF];
    assert FormatMac(middle[1..], ':') == "CC:DD:EE:FF";
  }

  /** The example MAC written the usual way, with colons. */
  lemma ExampleMacFormat()
    ensures FormatMac([0xAA, 0xBB, 0xCC, 0xDD, 0xEE, 0xFF], ':') == "AA:BB:CC:DD:EE:FF"
  {
    var mac: seq<byte> := [0xAA, 0xBB, 0xCC, 0xDD, 0xEE, 0xFF];
    ExampleMacMiddle();
    assert HexPair(0xAA) == "AA";
    assert mac[1..] == [0xBB, 0xCC, 0xDD, 0xEE, 0xFF];
  }

  /** `AA:BB:CC:DD:EE:FF` yields 0xFF six times, then AA BB CC DD EE FF sixteen times: 102 bytes. */
  lemma ExampleMacPacket()
    ensures var mac: seq<byte> := [0xAA, 0xBB, 0xCC, 0xDD, 0xEE, 0xFF];
      && WakeOnLanPayload("AA:BB:CC:DD:EE:FF") == Some(MagicPacket(mac))
      && |MagicPacket(mac)| == 102
  {
    var mac: seq<byte> := [0xAA, 0xBB, 0xCC, 0xDD, 0xEE, 0xFF];
    ExampleMacFormat();
    MacRoundTrip(mac, ':');
  }
}
