/** The STUN response parser (crates/bitcord-core/src/network/nat.rs:183-271) and the attribute grammar of RFC
    5389 sections 6, 15, 15.1 and 15.2 it reads. */
module Stun {
  import opened Bits
  import opened Wrappers
  import opened NodeIds

  const HEADER: nat := 20
  const XOR_MAPPED_ADDRESS: nat := 0x0020
  const MAPPED_ADDRESS: nat := 0x0001
  const COOKIE: nat := 0x2112_A442
  const COOKIE_HIGH: nat := 0x2112

  datatype SocketAddr = SocketAddr(ip: nat, port: nat)

  datatype Attr = Attr(typ: nat, value: seq<Byte>)

  function U16(hi: Byte, lo: Byte): nat {
    256 * hi + lo
  }

  /** A length rounded up to a multiple of four. */
  function Padded(len: nat): (p: nat)
    ensures len <= p < len + 4
  {
    (len + 3) / 4 * 4
  }

  /** Padding goes up to the next multiple of four and no further. */
  lemma {:induction false} PaddedIs(len: nat, n: nat)
    ensures Padded(len) % 4 == 0
    ensures n % 4 == 0 && len <= n ==> Padded(len) <= n
  {
    var q := (len + 3) / 4;
    assert Padded(len) == 4 * q;
  }

  // ---------- Address decoders ----------

  function ParseXorMappedAddress(data: seq<Byte>): Option<SocketAddr> {
    if |data| < 8 then None
    else if data[1] == 0x01 then
      Some(SocketAddr(Xor(Value(data[4..8]), COOKIE), Xor(U16(data[2], data[3]), COOKIE_HIGH)))
    else None
  }

  function ParseMappedAddress(data: seq<Byte>): Option<SocketAddr> {
    if |data| < 8 then None
    else if data[1] == 0x01 then Some(SocketAddr(Value(data[4..8]), U16(data[2], data[3])))
    else None
  }

  // ---------- The grammar ----------

  /** The attributes whose header starts at `pos` or later, up to `limit`, and whose value lies in the
      buffer. */
  function AttrsIn(buf: seq<Byte>, pos: nat, limit: nat): seq<Attr>
    requires limit <= |buf|
    decreases if pos <= limit then limit - pos else 0
  {
    if pos + 4 > limit then []
    else
      var typ, len := U16(buf[pos], buf[pos + 1]), U16(buf[pos + 2], buf[pos + 3]);
      var at := pos + 4;
      if at + len > |buf| then []
      else [Attr(typ, buf[at..at + len])] + AttrsIn(buf, at + Padded(len), limit)
  }

  /** The first decodable XOR-MAPPED-ADDRESS. */
  function FirstXor(attrs: seq<Attr>): Option<SocketAddr> {
    if attrs == [] then None
    else if attrs[0].typ == XOR_MAPPED_ADDRESS && ParseXorMappedAddress(attrs[0].value).Some?
    then ParseXorMappedAddress(attrs[0].value)
    else FirstXor(attrs[1..])
  }

  /** The result of the last MAPPED-ADDRESS, decodable or not. */
  function LastMapped(attrs: seq<Attr>): Option<SocketAddr> {
    if attrs == [] then None
    else
      var n := |attrs| - 1;
      if attrs[n].typ == MAPPED_ADDRESS then ParseMappedAddress(attrs[n].value) else LastMapped(attrs[..n])
  }

  function Result(attrs: seq<Attr>): Option<SocketAddr> {
    if FirstXor(attrs).Some? then FirstXor(attrs) else LastMapped(attrs)
  }

  predicate HeaderOk(buf: seq<Byte>, txid: seq<Byte>) {
    && |buf| >= HEADER
    && buf[0] == 0x01 && buf[1] == 0x01
    && buf[4..8] == [0x21, 0x12, 0xA4, 0x42]
    && buf[8..20] == txid
    && |buf| >= HEADER + U16(buf[2], buf[3])
  }

  // ---------- The parser ----------

  /** The loop's answer when `mapped` was found before the attributes still to come. */
  ghost function ResultFrom(mapped: Option<SocketAddr>, attrs: seq<Attr>): Option<SocketAddr>
    decreases |attrs|
  {
    if attrs == [] then mapped
    else if attrs[0].typ == XOR_MAPPED_ADDRESS && ParseXorMappedAddress(attrs[0].value).Some?
    then ParseXorMappedAddress(attrs[0].value)
    else ResultFrom(if attrs[0].typ == MAPPED_ADDRESS then ParseMappedAddress(attrs[0].value) else mapped, attrs[1..])
  }

  ghost predicate HasMapped(attrs: seq<Attr>) {
    exists i :: 0 <= i < |attrs| && attrs[i].typ == MAPPED_ADDRESS
  }

  predicate DecodesXor(a: Attr) {
    a.typ == 0x0020 && ParseXorMappedAddress(a.value).Some?
  }

  /** The answer is the first XOR-MAPPED-ADDRESS that decodes; if none does, what the last MAPPED-ADDRESS says,
      even if that does not decode; and nothing if there is neither. */
  lemma {:induction false} ResultIs(attrs: seq<Attr>, i: nat)
    ensures i < |attrs| && DecodesXor(attrs[i]) && (forall l :: 0 <= l < i ==> !DecodesXor(attrs[l]))
            ==> Result(attrs) == ParseXorMappedAddress(attrs[i].value)
    ensures (forall l :: 0 <= l < |attrs| ==> !DecodesXor(attrs[l]))
            && i < |attrs| && attrs[i].typ == 0x0001 && (forall l :: i < l < |attrs| ==> attrs[l].typ != 0x0001)
            ==> Result(attrs) == ParseMappedAddress(attrs[i].value)
    ensures (forall l :: 0 <= l < |attrs| ==> !DecodesXor(attrs[l]) && attrs[l].typ != 0x0001) ==> Result(attrs) == None
  {
    hide DecodesXor, FirstXor, LastMapped;
    FirstXorIs(attrs, i);
    LastMappedIs(attrs, i);
  }

  lemma {:induction false} FirstXorIs(attrs: seq<Attr>, i: nat)
    ensures i < |attrs| && DecodesXor(attrs[i]) && (forall l :: 0 <= l < i ==> !DecodesXor(attrs[l]))
            ==> FirstXor(attrs).Some? && FirstXor(attrs) == ParseXorMappedAddress(attrs[i].value)
    ensures (forall l :: 0 <= l < |attrs| ==> !DecodesXor(attrs[l])) ==> FirstXor(attrs) == None
    decreases |attrs|
  {
    hide ParseXorMappedAddress;
    if attrs == [] {
    } else {
      FirstXorIs(attrs[1..], if i > 0 then i - 1 else 0);
    }
  }

  lemma {:induction false} LastMappedIs(attrs: seq<Attr>, i: nat)
    ensures i < |attrs| && attrs[i].typ == 0x0001 && (forall l :: i < l < |attrs| ==> attrs[l].typ != 0x0001)
            ==> LastMapped(attrs) == ParseMappedAddress(attrs[i].value)
    ensures (forall l :: 0 <= l < |attrs| ==> attrs[l].typ != 0x0001) ==> LastMapped(attrs) == None
    decreases |attrs|
  {
    hide ParseMappedAddress;
    if attrs == [] {
    } else {
      LastMappedIs(attrs[..|attrs| - 1], i);
    }
  }

  lemma {:induction false} LastMappedCons(a: Attr, rest: seq<Attr>)
    ensures LastMapped([a] + rest) == if HasMapped(rest) then LastMapped(rest)
                                      else if a.typ == MAPPED_ADDRESS then ParseMappedAddress(a.value) else None
    decreases |rest|
  {
    if rest == [] {
      assert [a] + rest == [a] && [a][..0] == [];
      assert LastMapped([]) == None;
    } else {
      var n := |rest| - 1;
      assert ([a] + rest)[..n + 1] == [a] + rest[..n];
      LastMappedCons(a, rest[..n]);
      assert HasMapped(rest) <==> rest[n].typ == MAPPED_ADDRESS || HasMapped(rest[..n]) by {
        if i :| 0 <= i < |rest| && rest[i].typ == MAPPED_ADDRESS && i < n {
          assert rest[..n][i].typ == MAPPED_ADDRESS;
        }
      }
    }
  }

  lemma {:induction false} ResultFromIs(mapped: Option<SocketAddr>, attrs: seq<Attr>)
    ensures ResultFrom(mapped, attrs) == if FirstXor(attrs).Some? then FirstXor(attrs)
                                         else if HasMapped(attrs) then LastMapped(attrs) else mapped
    decreases |attrs|
  {
    if attrs == [] {
    } else {
      var a, rest := attrs[0], attrs[1..];
      assert attrs == [a] + rest;
      LastMappedCons(a, rest);
      ResultFromIs(if a.typ == MAPPED_ADDRESS then ParseMappedAddress(a.value) else mapped, rest);
      assert HasMapped(attrs) <==> a.typ == MAPPED_ADDRESS || HasMapped(rest) by {
        if i :| 0 <= i < |attrs| && attrs[i].typ == MAPPED_ADDRESS && i > 0 {
          assert rest[i - 1].typ == MAPPED_ADDRESS;
        }
        if i :| 0 <= i < |rest| && rest[i].typ == MAPPED_ADDRESS {
          assert attrs[i + 1].typ == MAPPED_ADDRESS;
        }
      }
    }
  }

  lemma {:induction false} NoMappedNoResult(attrs: seq<Attr>)
    requires !HasMapped(attrs)
    ensures LastMapped(attrs) == None
  {
    if attrs == [] {
    } else {
      var n := |attrs| - 1;
      assert forall i :: 0 <= i < n ==> attrs[..n][i] == attrs[i];
      NoMappedNoResult(attrs[..n]);
    }
  }

  lemma {:induction false} AttrsStep(buf: seq<Byte>, pos: nat, limit: nat)
    requires limit <= |buf|
    ensures pos + 4 > limit ==> AttrsIn(buf, pos, limit) == []
    ensures pos + 4 <= limit ==>
              var len := U16(buf[pos + 2], buf[pos + 3]);
              AttrsIn(buf, pos, limit) ==
              if pos + 4 + len > |buf| then []
              else [Attr(U16(buf[pos], buf[pos + 1]), buf[pos + 4..pos + 4 + len])]
                   + AttrsIn(buf, pos + 4 + Padded(len), limit)
  {
  }

  lemma {:induction false} ResultStep(mapped: Option<SocketAddr>, a: Attr, rest: seq<Attr>)
    ensures ResultFrom(mapped, []) == mapped
    ensures ResultFrom(mapped, [a] + rest) ==
            if a.typ == XOR_MAPPED_ADDRESS && ParseXorMappedAddress(a.value).Some? then ParseXorMappedAddress(a.value)
            else ResultFrom(if a.typ == MAPPED_ADDRESS then ParseMappedAddress(a.value) else mapped, rest)
  {
    assert ([a] + rest)[1..] == rest;
  }

  lemma {:induction false} ResultFromNothing(attrs: seq<Attr>)
    ensures ResultFrom(None, attrs) == Result(attrs)
  {
    ResultFromIs(None, attrs);
    if !HasMapped(attrs) {
      NoMappedNoResult(attrs);
    }
  }

  /** On every buffer the parser stays in range and answers as the grammar says. */
  method ParseStunResponse(buf: seq<Byte>, txid: seq<Byte>) returns (r: Option<SocketAddr>)
    requires |txid| == 12
    ensures r == if HeaderOk(buf, txid) then Result(AttrsIn(buf, HEADER, HEADER + U16(buf[2], buf[3]))) else None
    ensures r.Some? ==> exists body, back :: Responds(buf, txid, body, back)
  {
    HeaderOkIff(buf, txid);
    hide HeaderOk, AttrsIn, Result;
    var ok := CheckHeader(buf, txid);
    if !ok {
      return None;
    }
    HeaderFits(buf, txid);
    r := ReadAttributes(buf, U16(buf[2], buf[3]));
  }

  /** The buffer starts with a whole response to transaction `txid`: its header, and as many bytes as that declares. */
  ghost predicate Responds(buf: seq<Byte>, txid: seq<Byte>, body: seq<Byte>, back: seq<Byte>) {
    |body| < 65536 && buf == Header(txid, |body|) + body + back
  }

  /** The header test accepts exactly the buffers that start with a whole response to the transaction: nothing else,
      in particular no response to another transaction and none that is cut short. */
  lemma {:induction false} HeaderOkIff(buf: seq<Byte>, txid: seq<Byte>)
    requires |txid| == 12
    ensures HeaderOk(buf, txid) <==> exists body, back :: Responds(buf, txid, body, back)
  {
    if HeaderOk(buf, txid) {
      var len := U16(buf[2], buf[3]);
      var body, back := buf[HEADER..HEADER + len], buf[HEADER + len..];
      assert buf[..HEADER] == buf[..4] + buf[4..8] + buf[8..20];
      assert buf[..4] == [0x01, 0x01] + Be16(len);
      assert Header(txid, |body|) == buf[..HEADER];
      assert buf == buf[..HEADER] + body + back;
      assert Responds(buf, txid, body, back);
    }
    if body, back :| Responds(buf, txid, body, back) {
      HeaderIsOk(txid, body, back);
    }
  }

  /** So a buffer is a response to one transaction at most. */
  lemma {:induction false} OneTransaction(buf: seq<Byte>, mine: seq<Byte>, other: seq<Byte>)
    requires |mine| == 12 && |other| == 12 && HeaderOk(buf, mine) && HeaderOk(buf, other)
    ensures mine == other
  {
    HeaderOkIff(buf, mine);
    HeaderOkIff(buf, other);
    hide HeaderOk;
    var a, x :| Responds(buf, mine, a, x);
    var b, y :| Responds(buf, other, b, y);
    assert buf[8..20] == mine && buf[8..20] == other;
  }

  lemma {:induction false} HeaderFits(buf: seq<Byte>, txid: seq<Byte>)
    requires HeaderOk(buf, txid)
    ensures |buf| >= HEADER && |buf| >= HEADER + U16(buf[2], buf[3])
  {
  }

  method CheckHeader(buf: seq<Byte>, txid: seq<Byte>) returns (ok: bool)
    ensures ok == HeaderOk(buf, txid)
  {
    if |buf| < 20 {
      return false;
    }
    if buf[0] != 0x01 || buf[1] != 0x01 {
      return false;
    }
    if buf[4..8] != [0x21, 0x12, 0xA4, 0x42] {
      return false;
    }
    if buf[8..20] != txid {
      return false;
    }
    var msgLen := U16(buf[2], buf[3]);
    return |buf| >= 20 + msgLen;
  }

  /** What one attribute does to the loop's answer. */
  lemma {:induction false} LoopStep(buf: seq<Byte>, pos: nat, limit: nat, mapped: Option<SocketAddr>)
    requires limit <= |buf| && pos + 4 <= limit
    ensures var typ, len := U16(buf[pos], buf[pos + 1]), U16(buf[pos + 2], buf[pos + 3]);
            ResultFrom(mapped, AttrsIn(buf, pos, limit))
            == if pos + 4 + len > |buf| then mapped
               else
                 var data := buf[pos + 4..pos + 4 + len];
                 if typ == 0x0020 && ParseXorMappedAddress(data).Some? then ParseXorMappedAddress(data)
                 else ResultFrom(if typ == 0x0001 then ParseMappedAddress(data) else mapped,
                                 AttrsIn(buf, pos + 4 + Padded(len), limit))
  {
    hide AttrsIn, ResultFrom, ParseXorMappedAddress, ParseMappedAddress, Padded, U16;
    var typ, len := U16(buf[pos], buf[pos + 1]), U16(buf[pos + 2], buf[pos + 3]);
    AttrsStep(buf, pos, limit);
    ResultStep(mapped, Attr(0, []), []);
    if pos + 4 + len <= |buf| {
      ResultStep(mapped, Attr(typ, buf[pos + 4..pos + 4 + len]), AttrsIn(buf, pos + 4 + Padded(len), limit));
    }
  }

  lemma {:induction false} LoopEnds(buf: seq<Byte>, pos: nat, limit: nat, mapped: Option<SocketAddr>)
    requires limit <= |buf| && pos + 4 > limit
    ensures ResultFrom(mapped, AttrsIn(buf, pos, limit)) == mapped
  {
  }

  /** The attribute loop. */
  method ReadAttributes(buf: seq<Byte>, msgLen: nat) returns (r: Option<SocketAddr>)
    requires |buf| >= 20 + msgLen
    ensures r == Result(AttrsIn(buf, 20, 20 + msgLen))
  {
    hide *;
    var pos := 20;
    var mapped: Option<SocketAddr> := None;
    ghost var limit := 20 + msgLen;
    ghost var all := AttrsIn(buf, 20, limit);
    ResultFromNothing(all);
    while pos + 4 <= 20 + msgLen
      invariant 20 <= pos
      invariant ResultFrom(mapped, AttrsIn(buf, pos, limit)) == Result(all)
      decreases limit - pos
    {
      LoopStep(buf, pos, limit, mapped);
      var attrType := U16(buf[pos], buf[pos + 1]);
      var attrLen := U16(buf[pos + 2], buf[pos + 3]);
      pos := pos + 4;
      if pos + attrLen > |buf| {
        return mapped;
      }
      var attrData := buf[pos..pos + attrLen];
      if attrType == 0x0020 {
        var addr := ParseXorMappedAddress(attrData);
        if addr.Some? {
          return addr;
        }
      } else if attrType == 0x0001 {
        mapped := ParseMappedAddress(attrData);
      }
      pos := pos + Padded(attrLen);
    }
    LoopEnds(buf, pos, limit, mapped);
    return mapped;
  }

  // ---------- Encoding and round trip ----------

  function Be16(n: nat): seq<Byte>
    requires n < 65536
  {
    [n / 256, n % 256]
  }

  function Be32(n: nat): seq<Byte>
    requires n < 0x1_0000_0000
  {
    [n / 0x100_0000, n / 0x1_0000 % 256, n / 256 % 256, n % 256]
  }

  /** An attribute that fits its header, and the padding after it. */
  ghost predicate Encodable(a: Attr, pad: seq<Byte>) {
    a.typ < 65536 && |a.value| < 65536 && |a.value| + |pad| == Padded(|a.value|)
  }

  ghost function EncodeAttr(a: Attr, pad: seq<Byte>): (s: seq<Byte>)
    requires Encodable(a, pad)
    ensures |s| == 4 + Padded(|a.value|)
  {
    Be16(a.typ) + Be16(|a.value|) + a.value + pad
  }

  ghost predicate AllEncodable(attrs: seq<Attr>, pads: seq<seq<Byte>>) {
    |attrs| == |pads| && forall i :: 0 <= i < |attrs| ==> Encodable(attrs[i], pads[i])
  }

  ghost function EncodeAll(attrs: seq<Attr>, pads: seq<seq<Byte>>): seq<Byte>
    requires AllEncodable(attrs, pads)
  {
    if attrs == [] then [] else EncodeAttr(attrs[0], pads[0]) + EncodeAll(attrs[1..], pads[1..])
  }

  ghost function Header(txid: seq<Byte>, len: nat): seq<Byte>
    requires len < 65536
  {
    [0x01, 0x01] + Be16(len) + [0x21, 0x12, 0xA4, 0x42] + txid
  }

  lemma {:induction false} Slices(buf: seq<Byte>, pos: nat, one: seq<Byte>, more: seq<Byte>)
    requires pos + |one + more| <= |buf| && buf[pos..pos + |one + more|] == one + more
    ensures buf[pos..pos + |one|] == one
    ensures buf[pos + |one|..pos + |one| + |more|] == more
  {
    var s := buf[pos..pos + |one + more|];
    assert buf[pos..pos + |one|] == s[..|one|];
    assert buf[pos + |one|..pos + |one| + |more|] == s[|one|..];
  }

  lemma {:induction false} SameLength(attrs: seq<Attr>, pads: seq<seq<Byte>>)
    requires AllEncodable(attrs, pads)
    ensures |attrs| == |pads|
  {
  }

  lemma {:induction false} EncodeNothing(attrs: seq<Attr>, pads: seq<seq<Byte>>)
    requires AllEncodable(attrs, pads) && attrs == []
    ensures EncodeAll(attrs, pads) == []
  {
  }

  lemma {:induction false} EncodeStep(attrs: seq<Attr>, pads: seq<seq<Byte>>)
    requires AllEncodable(attrs, pads) && attrs != []
    ensures AllEncodable(attrs[1..], pads[1..]) && Encodable(attrs[0], pads[0])
    ensures EncodeAll(attrs, pads) == EncodeAttr(attrs[0], pads[0]) + EncodeAll(attrs[1..], pads[1..])
  {
  }

  /** Reading where encoded attributes stand gives them back, whatever stands before and behind. */
  lemma {:induction false} AttrsOfEncoding(buf: seq<Byte>, pos: nat, attrs: seq<Attr>, pads: seq<seq<Byte>>)
    requires AllEncodable(attrs, pads) && pos + |EncodeAll(attrs, pads)| <= |buf|
    requires buf[pos..pos + |EncodeAll(attrs, pads)|] == EncodeAll(attrs, pads)
    ensures AttrsIn(buf, pos, pos + |EncodeAll(attrs, pads)|) == attrs
    decreases |attrs|
  {
    hide *;
    SameLength(attrs, pads);
    if attrs == [] {
      EncodeNothing(attrs, pads);
      AttrsStep(buf, pos, pos);
    } else {
      var a, pad, rest := attrs[0], pads[0], attrs[1..];
      EncodeStep(attrs, pads);
      var one, more := EncodeAttr(a, pad), EncodeAll(rest, pads[1..]);
      Slices(buf, pos, one, more);
      AttrsOfEncoding(buf, pos + |one|, rest, pads[1..]);
      OneAttr(buf, pos, a, pad);
      AttrsStep(buf, pos, pos + |one| + |more|);
      assert attrs == [a] + rest;
    }
  }

  lemma {:induction false} OneAttr(buf: seq<Byte>, p: nat, a: Attr, pad: seq<Byte>)
    requires Encodable(a, pad) && p + |EncodeAttr(a, pad)| <= |buf|
             && buf[p..p + |EncodeAttr(a, pad)|] == EncodeAttr(a, pad)
    ensures p + 4 + |a.value| <= |buf|
    ensures U16(buf[p], buf[p + 1]) == a.typ && U16(buf[p + 2], buf[p + 3]) == |a.value|
    ensures buf[p + 4..p + 4 + |a.value|] == a.value
  {
    var one := EncodeAttr(a, pad);
    var s := buf[p..p + |one|];
    SliceOfSlice(buf, p, p + |one|, 4, 4 + |a.value|);
    assert s[0] == a.typ / 256 && s[1] == a.typ % 256 && s[2] == |a.value| / 256 && s[3] == |a.value| % 256;
    assert s[4..4 + |a.value|] == a.value;
  }

  lemma {:induction false} SliceOfSlice(buf: seq<Byte>, p: nat, q: nat, i: nat, j: nat)
    requires p <= q <= |buf| && i <= j <= q - p
    ensures buf[p..q][i..j] == buf[p + i..p + j]
  {
    var a, b := buf[p..q][i..j], buf[p + i..p + j];
    forall k | 0 <= k < |a|
      ensures a[k] == b[k]
    {
    }
  }

  /** Parsing inverts encoding: a response made of any padded attributes, even with bytes after its end,
      yields the first decodable XOR-MAPPED-ADDRESS of these attributes, else their last MAPPED-ADDRESS. */
  lemma {:induction false} ParseInvertsEncode(txid: seq<Byte>, attrs: seq<Attr>, pads: seq<seq<Byte>>, back: seq<Byte>)
    requires |txid| == 12 && AllEncodable(attrs, pads) && |EncodeAll(attrs, pads)| < 65536
    ensures var body := EncodeAll(attrs, pads);
            var buf := Header(txid, |body|) + body + back;
            HeaderOk(buf, txid) && AttrsIn(buf, HEADER, HEADER + U16(buf[2], buf[3])) == attrs
  {
    hide EncodeAll, AttrsIn, HeaderOk, Header;
    var body := EncodeAll(attrs, pads);
    var h := Header(txid, |body|);
    var buf := h + body + back;
    HeaderIsOk(txid, body, back);
    assert buf[HEADER..HEADER + |body|] == body;
    AttrsOfEncoding(buf, HEADER, attrs, pads);
  }

  lemma {:induction false} HeaderIsOk(txid: seq<Byte>, body: seq<Byte>, back: seq<Byte>)
    requires |txid| == 12 && |body| < 65536
    ensures |Header(txid, |body|)| == 20
    ensures var buf := Header(txid, |body|) + body + back;
            HeaderOk(buf, txid) && U16(buf[2], buf[3]) == |body|
  {
    var buf := Header(txid, |body|) + body + back;
    assert buf[2] == |body| / 256 && buf[3] == |body| % 256;
    assert buf[4..8] == [0x21, 0x12, 0xA4, 0x42];
    assert buf[8..20] == txid;
  }

  /** The value of an XOR-MAPPED-ADDRESS for an IPv4 address (section 15.2). */
  ghost function XorMappedValue(addr: SocketAddr): seq<Byte>
    requires addr.ip < 0x1_0000_0000 && addr.port < 65536
  {
    XorFits(addr);
    [0, 1] + Be16(Xor(addr.port, COOKIE_HIGH)) + Be32(Xor(addr.ip, COOKIE))
  }

  lemma {:induction false} XorFits(addr: SocketAddr)
    requires addr.ip < 0x1_0000_0000 && addr.port < 65536
    ensures Xor(addr.port, COOKIE_HIGH) < 65536 && Xor(addr.ip, COOKIE) < 0x1_0000_0000
  {
    hide Xor;
    Pow2Byte(0);
    Pow2Byte(8);
    Pow2Byte(16);
    Pow2Byte(24);
    XorBelow(addr.port, COOKIE_HIGH, 16);
    XorBelow(addr.ip, COOKIE, 32);
  }

  // ---------- What the decoders accept ----------

  lemma {:induction false} Be16OfValue(a: Byte, b: Byte)
    ensures U16(a, b) < 65536 && Be16(U16(a, b)) == [a, b] && Value([a, b]) == U16(a, b)
  {
    hide Value;
    ValueOfNothing();
    ValueSnoc([], a);
    ValueSnoc([a], b);
    assert [] + [a] == [a] && [a] + [b] == [a, b];
  }

  lemma {:induction false} Be32OfValue(s: seq<Byte>)
    requires |s| == 4
    ensures Value(s) < 0x1_0000_0000 && Be32(Value(s)) == s
  {
    hide Value;
    var a, b, c, d := s[0], s[1], s[2], s[3];
    ValueOfNothing();
    ValueSnoc([], a);
    ValueSnoc([a], b);
    ValueSnoc([a, b], c);
    ValueSnoc([a, b, c], d);
    assert [] + [a] == [a] && [a] + [b] == [a, b] && [a, b] + [c] == [a, b, c] && [a, b, c] + [d] == s;
    Digits(a, b, c, d);
  }

  lemma {:induction false} Digits(a: Byte, b: Byte, c: Byte, d: Byte)
    ensures var n := 256 * (256 * (256 * a + b) + c) + d;
            && n < 0x1_0000_0000 && n / 0x100_0000 == a && n / 0x1_0000 % 256 == b && n / 256 % 256 == c && n % 256 == d
  {
    var n := 256 * (256 * (256 * a + b) + c) + d;
    assert n / 256 == 256 * (256 * a + b) + c && n / 0x1_0000 == 256 * a + b && n / 0x100_0000 == a;
  }

  /** MAPPED-ADDRESS decodes exactly the values of IPv4 family that carry the port and the address in network order,
      whatever their first byte and whatever follows. */
  lemma {:induction false} MappedDecodesIff(data: seq<Byte>, addr: SocketAddr)
    ensures ParseMappedAddress(data) == Some(addr) <==>
            && |data| >= 8 && addr.ip < 0x1_0000_0000 && addr.port < 65536
            && data[1..8] == [0x01] + Be16(addr.port) + Be32(addr.ip)
  {
    if |data| >= 8 {
      Be16OfValue(data[2], data[3]);
      Be32OfValue(data[4..8]);
      assert data[1..8] == [data[1]] + [data[2], data[3]] + data[4..8];
      if addr.ip < 0x1_0000_0000 && addr.port < 65536 {
        ValueOfBe32(addr.ip);
        var code := [0x01] + Be16(addr.port) + Be32(addr.ip);
        if data[1..8] == code {
          assert data[1] == code[0] && data[2] == code[1] && data[3] == code[2] && data[4..8] == code[3..];
          assert code[3..] == Be32(addr.ip);
        }
      }
    }
  }

  /** XOR-MAPPED-ADDRESS decodes a value exactly as MAPPED-ADDRESS decodes it with every byte of port and address
      exclusive-ored with the cookie of the header. */
  lemma {:induction false} XorIsMappedWithCookie(data: seq<Byte>)
    requires |data| >= 8
    ensures var plain :=
            data[..2] + XorBytes(data[2..4], [0x21, 0x12]) + XorBytes(data[4..8], [0x21, 0x12, 0xA4, 0x42]);
            ParseXorMappedAddress(data) == ParseMappedAddress(plain)
    ensures ParseXorMappedAddress(data).Some? <==> data[1] == 0x01
  {
    hide Value, Xor;
    var port, ip := XorBytes(data[2..4], [0x21, 0x12]), XorBytes(data[4..8], [0x21, 0x12, 0xA4, 0x42]);
    var plain := data[..2] + port + ip;
    CookieValues();
    XorBytesValue(data[2..4], [0x21, 0x12]);
    XorBytesValue(data[4..8], [0x21, 0x12, 0xA4, 0x42]);
    Be16OfValue(data[2], data[3]);
    Be16OfValue(port[0], port[1]);
    assert data[2..4] == [data[2], data[3]] && port == [port[0], port[1]];
    assert plain[4..8] == ip && plain[2] == port[0] && plain[3] == port[1] && plain[1] == data[1];
  }

  lemma {:induction false} ShortValuesAreRefused(data: seq<Byte>)
    requires |data| < 8
    ensures ParseXorMappedAddress(data).None? && ParseMappedAddress(data).None?
  {
  }

  lemma {:induction false} CookieValues()
    ensures Value([0x21, 0x12]) == COOKIE_HIGH && Value([0x21, 0x12, 0xA4, 0x42]) == COOKIE
  {
    hide Value;
    ValueOfNothing();
    ValueSnoc([], 0x21);
    ValueSnoc([0x21], 0x12);
    ValueSnoc([0x21, 0x12], 0xA4);
    ValueSnoc([0x21, 0x12, 0xA4], 0x42);
    assert [] + [0x21] == [0x21] && [0x21] + [0x12] == [0x21, 0x12];
    assert [0x21, 0x12] + [0xA4] == [0x21, 0x12, 0xA4] && [0x21, 0x12, 0xA4] + [0x42] == [0x21, 0x12, 0xA4, 0x42];
  }

  lemma {:induction false} ValueOfBe32(n: nat)
    requires n < 0x1_0000_0000
    ensures Value(Be32(n)) == n
  {
    hide Value;
    var a, b, c, d := n / 0x100_0000, n / 0x1_0000 % 256, n / 256 % 256, n % 256;
    ValueOfNothing();
    FourDigits(n);
    ValueSnoc([], a);
    ValueSnoc([a], b);
    ValueSnoc([a, b], c);
    ValueSnoc([a, b, c], d);
    assert [] + [a] == [a] && [a] + [b] == [a, b] && [a, b] + [c] == [a, b, c] && [a, b, c] + [d] == Be32(n);
  }

  lemma {:induction false} ValueOfNothing()
    ensures Value([]) == 0
  {
  }

  lemma {:induction false} FourDigits(n: nat)
    ensures n == 256 * (256 * (256 * (n / 0x100_0000) + n / 0x1_0000 % 256) + n / 256 % 256) + n % 256
  {
    assert n / 0x1_0000 == n / 256 / 256 && n / 0x100_0000 == n / 0x1_0000 / 256;
  }

  lemma {:induction false} ValueSnoc(s: seq<Byte>, x: Byte)
    ensures Value(s + [x]) == 256 * Value(s) + x
  {
    assert (s + [x])[..|s|] == s;
  }

  /** Every IPv4 address survives being sent as XOR-MAPPED-ADDRESS. */
  lemma {:induction false} XorMappedRoundTrip(addr: SocketAddr)
    requires addr.ip < 0x1_0000_0000 && addr.port < 65536
    ensures ParseXorMappedAddress(XorMappedValue(addr)) == Some(addr)
  {
    XorFits(addr);
    var x, y := Xor(addr.port, COOKIE_HIGH), Xor(addr.ip, COOKIE);
    var v := [0, 1] + Be16(x) + Be32(y);
    assert v == XorMappedValue(addr);
    assert v[4..8] == Be32(y);
    hide Xor;
    ValueOfBe32(y);
    XorComm(addr.port, COOKIE_HIGH);
    XorComm(COOKIE_HIGH, x);
    XorCancel(COOKIE_HIGH, addr.port);
    XorComm(addr.ip, COOKIE);
    XorComm(COOKIE, y);
    XorCancel(COOKIE, addr.ip);
  }

  /** The value of a MAPPED-ADDRESS for an IPv4 address (section 15.1). */
  ghost function MappedValue(addr: SocketAddr): seq<Byte>
    requires addr.ip < 0x1_0000_0000 && addr.port < 65536
  {
    [0, 1] + Be16(addr.port) + Be32(addr.ip)
  }

  /** And every one survives being sent as MAPPED-ADDRESS. */
  lemma {:induction false} MappedRoundTrip(addr: SocketAddr)
    requires addr.ip < 0x1_0000_0000 && addr.port < 65536
    ensures ParseMappedAddress(MappedValue(addr)) == Some(addr)
  {
    var v := MappedValue(addr);
    assert v[4..8] == Be32(addr.ip);
    hide Value;
    ValueOfBe32(addr.ip);
  }

  lemma {:induction false} FirstXorAppend(front: seq<Attr>, a: Attr, back: seq<Attr>)
    requires FirstXor(front).None? && a.typ == XOR_MAPPED_ADDRESS && ParseXorMappedAddress(a.value).Some?
    ensures FirstXor(front + [a] + back) == ParseXorMappedAddress(a.value)
    decreases |front|
  {
    var all := front + [a] + back;
    if front == [] {
    } else {
      FirstXorAppend(front[1..], a, back);
      assert all[1..] == front[1..] + [a] + back;
    }
  }

  /** So a response that reports an address by XOR-MAPPED-ADDRESS among any other attributes, none of
      them an earlier decodable one, is read as that address. */
  lemma {:induction false} ReportedAddressIsRead(txid: seq<Byte>, addr: SocketAddr, front: seq<Attr>, back: seq<Attr>,
                                                 pads: seq<seq<Byte>>)
    requires |txid| == 12 && addr.ip < 0x1_0000_0000 && addr.port < 65536 && FirstXor(front).None?
    requires var attrs := front + [Attr(XOR_MAPPED_ADDRESS, XorMappedValue(addr))] + back;
             AllEncodable(attrs, pads) && |EncodeAll(attrs, pads)| < 65536
    ensures var attrs := front + [Attr(XOR_MAPPED_ADDRESS, XorMappedValue(addr))] + back;
            var buf := Header(txid, |EncodeAll(attrs, pads)|) + EncodeAll(attrs, pads);
            HeaderOk(buf, txid) && Result(AttrsIn(buf, HEADER, HEADER + U16(buf[2], buf[3]))) == Some(addr)
  {
    hide EncodeAll, AttrsIn, XorMappedValue, ParseXorMappedAddress, Header, LastMapped, HeaderOk;
    var a := Attr(XOR_MAPPED_ADDRESS, XorMappedValue(addr));
    var attrs := front + [a] + back;
    var body := EncodeAll(attrs, pads);
    ParseInvertsEncode(txid, attrs, pads, []);
    assert Header(txid, |body|) + body + [] == Header(txid, |body|) + body;
    XorMappedRoundTrip(addr);
    FirstXorAppend(front, a, back);
  }

  // ---------- Bytes after the message ----------

  /** An attribute starts inside the message and its value ends behind it, still inside the buffer. */
  predicate Overruns(buf: seq<Byte>, pos: nat, limit: nat)
    requires limit <= |buf|
    decreases if pos <= limit then limit - pos else 0
  {
    if pos + 4 > limit then false
    else
      var len := U16(buf[pos + 2], buf[pos + 3]);
      var end := pos + 4 + len;
      if end > |buf| then false else if end > limit then true else Overruns(buf, pos + 4 + Padded(len), limit)
  }

  /** The bytes behind the declared length change which attributes are read exactly when some attribute
      overruns the message: the parser bounds a value by the buffer, not by the message. */
  lemma {:induction false} TrailingBytesMatterIff(buf: seq<Byte>, pos: nat, limit: nat)
    requires limit <= |buf|
    ensures AttrsIn(buf, pos, limit) == AttrsIn(buf[..limit], pos, limit) <==> !Overruns(buf, pos, limit)
    decreases if pos <= limit then limit - pos else 0
  {
    hide AttrsIn;
    var msg := buf[..limit];
    AttrsStep(buf, pos, limit);
    AttrsStep(msg, pos, limit);
    if pos + 4 <= limit {
      var len := U16(buf[pos + 2], buf[pos + 3]);
      var at, next := pos + 4, pos + 4 + Padded(len);
      if at + len <= limit {
        TrailingBytesMatterIff(buf, next, limit);
        assert msg[at..at + len] == buf[at..at + len];
        SameTail(Attr(U16(buf[pos], buf[pos + 1]), buf[at..at + len]), AttrsIn(buf, next, limit),
          AttrsIn(msg, next, limit));
      }
    }
  }

  /** The attribute that overruns the message, if any. */
  function OverrunAttr(buf: seq<Byte>, pos: nat, limit: nat): Option<Attr>
    requires limit <= |buf|
    decreases if pos <= limit then limit - pos else 0
  {
    if pos + 4 > limit then None
    else
      var typ, len := U16(buf[pos], buf[pos + 1]), U16(buf[pos + 2], buf[pos + 3]);
      var end := pos + 4 + len;
      if end > |buf| then None
      else if end > limit then Some(Attr(typ, buf[pos + 4..end]))
      else OverrunAttr(buf, pos + 4 + Padded(len), limit)
  }

  /** It is read last, after the attributes of the message. */
  lemma {:induction false} OverrunComesLast(buf: seq<Byte>, pos: nat, limit: nat)
    requires limit <= |buf|
    ensures var inside, x := AttrsIn(buf[..limit], pos, limit), OverrunAttr(buf, pos, limit);
            AttrsIn(buf, pos, limit) == inside + (if x.Some? then [x.value] else [])
    decreases if pos <= limit then limit - pos else 0
  {
    hide AttrsIn, OverrunAttr, Padded;
    var msg := buf[..limit];
    AttrsStep(buf, pos, limit);
    AttrsStep(msg, pos, limit);
    OverrunStep(buf, pos, limit);
    if pos + 4 <= limit {
      var len := U16(buf[pos + 2], buf[pos + 3]);
      var at, next := pos + 4, pos + 4 + Padded(len);
      if at + len <= limit {
        OverrunComesLast(buf, next, limit);
        PrefixSlice(buf, limit, at, at + len);
      } else if at + len <= |buf| {
        AttrsStep(buf, next, limit);
      }
    }
  }

  lemma {:induction false} PrefixSlice(buf: seq<Byte>, limit: nat, i: nat, j: nat)
    requires i <= j <= limit <= |buf|
    ensures buf[..limit][i..j] == buf[i..j]
  {
  }

  lemma {:induction false} OverrunStep(buf: seq<Byte>, pos: nat, limit: nat)
    requires limit <= |buf|
    ensures pos + 4 > limit ==> OverrunAttr(buf, pos, limit) == None
    ensures pos + 4 <= limit ==>
              var end := pos + 4 + U16(buf[pos + 2], buf[pos + 3]);
              OverrunAttr(buf, pos, limit) ==
              if end > |buf| then None
              else if end > limit then Some(Attr(U16(buf[pos], buf[pos + 1]), buf[pos + 4..end]))
              else OverrunAttr(buf, pos + 4 + Padded(end - pos - 4), limit)
  {
    hide Padded;
  }

  /** What an attribute makes the answer if it is read last and no XOR-MAPPED-ADDRESS came before it. */
  function Offers(x: Attr): Option<Option<SocketAddr>> {
    if x.typ == XOR_MAPPED_ADDRESS && ParseXorMappedAddress(x.value).Some? then Some(ParseXorMappedAddress(x.value))
    else if x.typ == MAPPED_ADDRESS then Some(ParseMappedAddress(x.value))
    else None
  }

  lemma {:induction false} ResultOfOneMore(inside: seq<Attr>, x: Attr)
    ensures Result(inside + [x])
            == if FirstXor(inside).None? && Offers(x).Some? then Offers(x).value else Result(inside)
  {
    FirstXorLast(inside, x);
    hide FirstXor, ParseXorMappedAddress, ParseMappedAddress;
    var all := inside + [x];
    assert all[|all| - 1] == x && all[..|all| - 1] == inside;
  }

  lemma {:induction false} FirstXorLast(inside: seq<Attr>, x: Attr)
    ensures FirstXor(inside + [x]) == if FirstXor(inside).Some? then FirstXor(inside)
                                      else if x.typ == XOR_MAPPED_ADDRESS then ParseXorMappedAddress(x.value) else None
  {
    hide ParseXorMappedAddress;
    if inside == [] {
      assert inside + [x] == [x] && [x][1..] == [];
    } else {
      assert (inside + [x])[1..] == inside[1..] + [x];
      FirstXorLast(inside[1..], x);
    }
  }

  /** The bytes behind the message change the returned address if and only if an attribute overruns the
      message, no decodable XOR-MAPPED-ADDRESS stands before it, and it is itself a decodable
      XOR-MAPPED-ADDRESS or a MAPPED-ADDRESS and gives something else than the last MAPPED-ADDRESS inside. */
  lemma {:induction false} AddressChangesIff(buf: seq<Byte>, pos: nat, limit: nat)
    requires limit <= |buf|
    ensures var inside, x := AttrsIn(buf[..limit], pos, limit), OverrunAttr(buf, pos, limit);
            Result(AttrsIn(buf, pos, limit)) != Result(inside) <==>
            && x.Some? && FirstXor(inside).None?
            && Offers(x.value).Some? && Offers(x.value).value != LastMapped(inside)
  {
    var inside, x := AttrsIn(buf[..limit], pos, limit), OverrunAttr(buf, pos, limit);
    OverrunComesLast(buf, pos, limit);
    hide AttrsIn, OverrunAttr, FirstXor, LastMapped, Offers;
    if x.Some? {
      ResultOfOneMore(inside, x.value);
    } else {
      assert inside + [] == inside;
    }
  }

  lemma {:induction false} SameTail(a: Attr, u: seq<Attr>, v: seq<Attr>)
    ensures [a] + u == [a] + v <==> u == v
  {
    assert ([a] + u)[1..] == u && ([a] + v)[1..] == v;
  }

  /** It can happen: a message of four bytes, all header of an XOR-MAPPED-ADDRESS, read together with the
      eight bytes behind it. */
  lemma {:induction false} OverrunIsRead(txid: seq<Byte>, addr: SocketAddr)
    requires |txid| == 12 && addr.ip < 0x1_0000_0000 && addr.port < 65536
    ensures var buf := Header(txid, 4) + [0, 0x20, 0, 8] + XorMappedValue(addr);
            && HeaderOk(buf, txid) && HeaderOk(buf[..24], txid)
            && Result(AttrsIn(buf, 20, 24)) == Some(addr)
            && Result(AttrsIn(buf[..24], 20, 24)) == None
  {
    hide *;
    var v := XorMappedValue(addr);
    XorMappedRoundTrip(addr);
    XorMappedLength(addr);
    var attr, h := [0, 0x20, 0, 8], Header(txid, 4);
    var buf := h + attr + v;
    HeaderIsOk(txid, attr, v);
    HeaderIsOk(txid, attr, []);
    assert buf[..24] == h + attr + [];
    OverrunAttrs(h, v);
    OneResult(v);
  }

  lemma {:induction false} XorMappedLength(addr: SocketAddr)
    requires addr.ip < 0x1_0000_0000 && addr.port < 65536
    ensures |XorMappedValue(addr)| == 8
  {
  }

  lemma {:induction false} OverrunAttrs(h: seq<Byte>, v: seq<Byte>)
    requires |h| == 20 && |v| == 8
    ensures var buf := h + [0, 0x20, 0, 8] + v;
            AttrsIn(buf, 20, 24) == [Attr(0x20, v)] && AttrsIn(buf[..24], 20, 24) == []
  {
    hide AttrsIn;
    var buf := h + [0, 0x20, 0, 8] + v;
    assert buf[20] == 0 && buf[21] == 0x20 && buf[22] == 0 && buf[23] == 8;
    assert buf[24..32] == v;
    AttrsStep(buf, 20, 24);
    AttrsStep(buf, 32, 24);
    AttrsStep(buf[..24], 20, 24);
  }

  lemma {:induction false} OneResult(v: seq<Byte>)
    requires ParseXorMappedAddress(v).Some?
    ensures Result([Attr(0x20, v)]) == ParseXorMappedAddress(v) && Result([]) == None
  {
  }
}
