/** Identity export bundles (crates/bitcord-core/src/identity/export.rs): cutting a display name on a UTF-8
    boundary and the `.bcid` layout. Names are byte strings in the UTF-8 of RFC 3629 section 4; the
    encrypted key blob is handed in. */
module Export {
  import opened Bits
  import opened Wrappers

  const BLOB: nat := 104

  // ---------- UTF-8 ----------

  predicate Tail(b: Byte) {
    0x80 <= b <= 0xBF
  }

  /** The length of the character a byte string starts with, or zero if it starts with none. */
  function CharLen(s: seq<Byte>): (n: nat)
    ensures n <= |s| && n <= 4
  {
    if s == [] then 0
    else if s[0] <= 0x7F then 1
    else if |s| < 2 then 0
    else if 0xC2 <= s[0] <= 0xDF && Tail(s[1]) then 2
    else if |s| < 3 || !Tail(s[2]) then 0
    else if SecondOfThree(s[0], s[1]) then 3
    else if |s| < 4 || !Tail(s[3]) then 0
    else if SecondOfFour(s[0], s[1]) then 4
    else 0
  }

  predicate SecondOfThree(a: Byte, b: Byte) {
    || (a == 0xE0 && 0xA0 <= b <= 0xBF)
    || ((0xE1 <= a <= 0xEC || 0xEE <= a <= 0xEF) && Tail(b))
    || (a == 0xED && 0x80 <= b <= 0x9F)
  }

  predicate SecondOfFour(a: Byte, b: Byte) {
    || (a == 0xF0 && 0x90 <= b <= 0xBF)
    || (0xF1 <= a <= 0xF3 && Tail(b))
    || (a == 0xF4 && 0x80 <= b <= 0x8F)
  }

  predicate ValidUtf8(s: seq<Byte>) {
    s == [] || (CharLen(s) > 0 && ValidUtf8(s[CharLen(s)..]))
  }

  /** Rust's `is_char_boundary`. */
  predicate IsCharBoundary(s: seq<Byte>, i: nat) {
    i == 0 || i == |s| || (i < |s| && !Tail(s[i]))
  }

  lemma {:induction false} CharShape(s: seq<Byte>)
    requires CharLen(s) > 0
    ensures !Tail(s[0]) && forall i :: 0 < i < CharLen(s) ==> Tail(s[i])
  {
  }

  /** A character is recognised as soon as all of it is there, and not before. */
  lemma {:induction false} CharLenOfPrefix(s: seq<Byte>, k: nat)
    requires CharLen(s) > 0 && k <= |s|
    ensures CharLen(s[..k]) == if k < CharLen(s) then 0 else CharLen(s)
  {
  }

  // ---------- The encoding it recognises ----------

  /** A Unicode scalar value: a code point that is no surrogate. */
  predicate IsScalar(cp: nat) {
    cp < 0xD800 || 0xE000 <= cp < 0x11_0000
  }

  /** The table of RFC 3629 section 3. */
  function EncodeChar(cp: nat): (s: seq<Byte>)
    requires IsScalar(cp)
    ensures 0 < |s| <= 4
  {
    if cp < 0x80 then [cp]
    else if cp < 0x800 then [0xC0 + cp / 64, 0x80 + cp % 64]
    else if cp < 0x1_0000 then [0xE0 + cp / 4096, 0x80 + cp / 64 % 64, 0x80 + cp % 64]
    else [0xF0 + cp / 262144, 0x80 + cp / 4096 % 64, 0x80 + cp / 64 % 64, 0x80 + cp % 64]
  }

  ghost predicate AllScalar(text: seq<nat>) {
    forall i :: 0 <= i < |text| ==> IsScalar(text[i])
  }

  function EncodeText(text: seq<nat>): seq<Byte>
    requires AllScalar(text)
  {
    if text == [] then [] else EncodeChar(text[0]) + EncodeText(text[1..])
  }

  lemma {:induction false} SecondBytes(cp: nat)
    requires IsScalar(cp)
    ensures 0x800 <= cp < 0x1_0000 ==> SecondOfThree(0xE0 + cp / 4096, 0x80 + cp / 64 % 64)
    ensures 0x1_0000 <= cp ==> SecondOfFour(0xF0 + cp / 262144, 0x80 + cp / 4096 % 64)
  {
    if 0x800 <= cp < 0x1_0000 {
      assert cp / 64 == 64 * (cp / 4096) + cp / 64 % 64;
    } else if 0x1_0000 <= cp {
      assert cp / 4096 == 64 * (cp / 262144) + cp / 4096 % 64;
    }
  }

  /** An encoded character is recognised whole, whatever follows. */
  lemma {:induction false} EncodedIsChar(cp: nat, rest: seq<Byte>)
    requires IsScalar(cp)
    ensures CharLen(EncodeChar(cp) + rest) == |EncodeChar(cp)|
  {
    SecondBytes(cp);
    hide SecondOfThree, SecondOfFour;
    var s := EncodeChar(cp) + rest;
    if cp < 0x80 {
    } else if cp < 0x800 {
      assert 0xC2 <= s[0] <= 0xDF;
    } else if cp < 0x1_0000 {
      assert s[0] >= 0xE0;
    } else {
      FirstOfFour(s[0], s[1]);
    }
  }

  lemma {:induction false} FirstOfFour(a: Byte, b: Byte)
    requires SecondOfFour(a, b)
    ensures a >= 0xF0 && !SecondOfThree(a, b)
  {
  }

  /** The code point of the character a byte string starts with. */
  function DecodeChar(s: seq<Byte>): nat
    requires CharLen(s) > 0
  {
    var n := CharLen(s);
    var a: nat, b: nat := s[0], if n > 1 then s[1] else 0;
    var c: nat, d: nat := if n > 2 then s[2] else 0, if n > 3 then s[3] else 0;
    if n == 1 then a
    else if n == 2 then 64 * (a % 32) + b % 64
    else if n == 3 then 4096 * (a % 16) + 64 * (b % 64) + c % 64
    else 262144 * (a % 8) + 4096 * (b % 64) + 64 * (c % 64) + d % 64
  }

  /** A recognised character is the encoding of a scalar value. */
  lemma {:induction false} CharIsEncoded(s: seq<Byte>)
    requires CharLen(s) > 0
    ensures IsScalar(DecodeChar(s)) && EncodeChar(DecodeChar(s)) == s[..CharLen(s)]
  {
    hide CharLen, EncodeChar, SecondOfThree, SecondOfFour, Tail, IsScalar;
    CharBytes(s);
    var n := CharLen(s);
    if n == 1 {
      OneByte(s[0]);
      assert s[..1] == [s[0]];
    } else if n == 2 {
      TwoBytes(s[0], s[1]);
      assert s[..2] == [s[0], s[1]];
    } else if n == 3 {
      ThreeBytes(s[0], s[1], s[2]);
      assert s[..3] == [s[0], s[1], s[2]];
    } else {
      FourBytes(s[0], s[1], s[2], s[3]);
      assert s[..4] == [s[0], s[1], s[2], s[3]];
    }
  }

  lemma {:induction false} CharBytes(s: seq<Byte>)
    requires CharLen(s) > 0
    ensures CharLen(s) == 1 ==> s[0] <= 0x7F
    ensures CharLen(s) == 2 ==> 0xC2 <= s[0] <= 0xDF && Tail(s[1])
    ensures CharLen(s) == 3 ==> SecondOfThree(s[0], s[1]) && Tail(s[2])
    ensures CharLen(s) == 4 ==> SecondOfFour(s[0], s[1]) && Tail(s[2]) && Tail(s[3])
  {
    hide SecondOfThree, SecondOfFour, Tail;
  }

  lemma {:induction false} OneByte(a: nat)
    requires a <= 0x7F
    ensures IsScalar(a) && EncodeChar(a) == [a]
  {
  }

  lemma {:induction false} TwoBytes(a: nat, b: nat)
    requires 0xC2 <= a <= 0xDF && b < 256 && Tail(b)
    ensures var cp := 64 * (a % 32) + b % 64; IsScalar(cp) && EncodeChar(cp) == [a, b]
  {
    var x, y := a % 32, b % 64;
    var cp := 64 * x + y;
    assert a == 0xC0 + x && b == 0x80 + y;
    assert cp / 64 == x && cp % 64 == y;
  }

  lemma {:induction false} TailDigit(b: nat)
    requires b < 256 && Tail(b)
    ensures b == 0x80 + b % 64
  {
  }

  lemma {:induction false} ThreeLead(a: nat, b: nat)
    requires a < 256 && b < 256 && SecondOfThree(a, b)
    ensures a == 0xE0 + a % 16 && Tail(b)
    ensures var h := 64 * (a % 16) + b % 64; 0x20 <= h < 0x360 || 0x380 <= h < 0x400
  {
  }

  lemma {:induction false} FourLead(a: nat, b: nat)
    requires a < 256 && b < 256 && SecondOfFour(a, b)
    ensures a == 0xF0 + a % 8 && Tail(b)
    ensures var h := 64 * (a % 8) + b % 64; 0x10 <= h < 0x110
  {
  }

  lemma {:induction false} FourDigits(v: nat, x: nat, y: nat, z: nat)
    requires x < 64 && y < 64 && z < 64
    ensures var n := 262144 * v + 4096 * x + 64 * y + z;
            n / 262144 == v && n / 4096 % 64 == x && n / 64 % 64 == y && n % 64 == z
  {
    var n := 262144 * v + 4096 * x + 64 * y + z;
    LastDigit(64 * (64 * v + x) + y, z, n);
    LastDigit(64 * v + x, y, n / 64);
    LastDigit(v, x, n / 64 / 64);
    DivideAgain(n, 64);
    DivideAgain(n, 4096);
  }

  lemma {:induction false} LastDigit(high: nat, low: nat, n: nat)
    requires low < 64 && n == 64 * high + low
    ensures n / 64 == high && n % 64 == low
  {
  }

  lemma {:induction false} DivideAgain(n: nat, d: nat)
    requires d == 64 || d == 4096
    ensures n / d / 64 == n / (64 * d)
  {
  }

  lemma {:induction false} ThreeEncoded(x: nat, y: nat, z: nat)
    requires x < 16 && y < 64 && z < 64
    requires 0x20 <= 64 * x + y < 0x360 || 0x380 <= 64 * x + y < 0x400
    ensures var cp := 4096 * x + 64 * y + z;
            IsScalar(cp) && 0x800 <= cp < 0x1_0000 && EncodeChar(cp) == [0xE0 + x, 0x80 + y, 0x80 + z]
  {
    FourDigits(0, x, y, z);
  }

  lemma {:induction false} FourEncoded(v: nat, x: nat, y: nat, z: nat)
    requires v < 8 && x < 64 && y < 64 && z < 64 && 0x10 <= 64 * v + x < 0x110
    ensures var cp := 262144 * v + 4096 * x + 64 * y + z;
            IsScalar(cp) && 0x1_0000 <= cp && EncodeChar(cp) == [0xF0 + v, 0x80 + x, 0x80 + y, 0x80 + z]
  {
    FourDigits(v, x, y, z);
  }

  lemma {:induction false} ThreeBytes(a: nat, b: nat, c: nat)
    requires a < 256 && b < 256 && c < 256 && SecondOfThree(a, b) && Tail(c)
    ensures var cp := 4096 * (a % 16) + 64 * (b % 64) + c % 64;
            IsScalar(cp) && 0x800 <= cp < 0x1_0000 && EncodeChar(cp) == [a, b, c]
  {
    hide *;
    ThreeLead(a, b);
    TailDigit(b);
    TailDigit(c);
    ThreeEncoded(a % 16, b % 64, c % 64);
  }

  lemma {:induction false} FourBytes(a: nat, b: nat, c: nat, d: nat)
    requires a < 256 && b < 256 && c < 256 && d < 256 && SecondOfFour(a, b) && Tail(c) && Tail(d)
    ensures var cp := 262144 * (a % 8) + 4096 * (b % 64) + 64 * (c % 64) + d % 64;
            IsScalar(cp) && 0x1_0000 <= cp && EncodeChar(cp) == [a, b, c, d]
  {
    hide *;
    FourLead(a, b);
    TailDigit(b);
    TailDigit(c);
    TailDigit(d);
    FourEncoded(a % 8, b % 64, c % 64, d % 64);
  }

  lemma {:induction false} EncodedIsValid(text: seq<nat>)
    requires AllScalar(text)
    ensures ValidUtf8(EncodeText(text))
  {
    if text == [] {
    } else {
      var first, rest := EncodeChar(text[0]), EncodeText(text[1..]);
      EncodedIsValid(text[1..]);
      EncodedIsChar(text[0], rest);
      hide CharLen, EncodeChar;
      assert (first + rest)[|first|..] == rest;
    }
  }

  lemma {:induction false} ValidIsEncoded(s: seq<Byte>) returns (text: seq<nat>)
    requires ValidUtf8(s)
    ensures AllScalar(text) && EncodeText(text) == s
  {
    hide CharLen, EncodeChar, IsScalar, DecodeChar;
    if s == [] {
      text := [];
    } else {
      var n := CharLen(s);
      CharIsEncoded(s);
      var rest := ValidIsEncoded(s[n..]);
      text := [DecodeChar(s)] + rest;
      assert text[1..] == rest && s == s[..n] + s[n..];
    }
  }

  /** What counts as valid: exactly the encodings of sequences of Unicode scalar values. */
  lemma {:induction false} ValidUtf8Iff(s: seq<Byte>)
    ensures ValidUtf8(s) <==> exists text :: AllScalar(text) && EncodeText(text) == s
  {
    hide ValidUtf8, EncodeText, AllScalar;
    if ValidUtf8(s) {
      var text := ValidIsEncoded(s);
    }
    if text :| AllScalar(text) && EncodeText(text) == s {
      EncodedIsValid(text);
    }
  }

  // ---------- Cutting ----------

  /** In a valid string exactly the prefixes that end on a character boundary are valid. */
  lemma {:induction false} ValidPrefixIff(s: seq<Byte>, k: nat)
    requires ValidUtf8(s) && k <= |s|
    ensures ValidUtf8(s[..k]) <==> IsCharBoundary(s, k)
    decreases |s|
  {
    if s != [] && k > 0 {
      var n := CharLen(s);
      CharShape(s);
      CharLenOfPrefix(s, k);
      hide CharLen, Tail;
      if k >= n {
        ValidPrefixIff(s[n..], k - n);
        assert s[..k][n..] == s[n..][..k - n];
        if s[n..] != [] {
          CharShape(s[n..]);
        }
      }
    }
  }

  /** No four neighbours of a valid string are all continuation bytes. */
  lemma {:induction false} BoundaryWithinFour(s: seq<Byte>, i: nat)
    requires ValidUtf8(s) && i + 3 < |s|
    ensures !(Tail(s[i]) && Tail(s[i + 1]) && Tail(s[i + 2]) && Tail(s[i + 3]))
    decreases |s|
  {
    var n := CharLen(s);
    CharShape(s);
    hide CharLen, Tail;
    if i >= n {
      BoundaryWithinFour(s[n..], i - n);
      assert s[n..][i - n] == s[i] && s[n..][i - n + 1] == s[i + 1] && s[n..][i - n + 2] == s[i + 2]
             && s[n..][i - n + 3] == s[i + 3];
    } else if i > 0 {
      CharShape(s[n..]);
      assert s[n..][0] == s[n];
    }
  }

  /** `r` is the longest valid prefix of `s` of at most `max` bytes. */
  ghost predicate LongestValidPrefix(s: seq<Byte>, max: nat, r: seq<Byte>) {
    && r <= s && |r| <= max && ValidUtf8(r)
    && forall k :: 0 <= k <= |s| && k <= max && ValidUtf8(s[..k]) ==> k <= |r|
  }

  /** Cuts a valid name: the result is the longest valid prefix that fits, and at most three bytes are
      given up when it cuts. */
  method TruncateToByteLen(s: seq<Byte>, max: nat) returns (r: seq<Byte>)
    requires ValidUtf8(s)
    ensures LongestValidPrefix(s, max, r)
    ensures |s| <= max ==> r == s
    ensures |s| > max ==> max <= |r| + 3
  {
    hide CharLen, Tail, ValidUtf8;
    if |s| <= max {
      assert forall k :: 0 <= k <= |s| ==> s[..k] <= s;
      return s;
    }
    var end := max;
    while end > 0 && !IsCharBoundary(s, end)
      invariant 0 <= end <= max
      invariant forall k: nat :: end < k <= max ==> !IsCharBoundary(s, k)
      invariant max <= end + 3
    {
      if end + 3 == max {
        assert !IsCharBoundary(s, end + 1) && !IsCharBoundary(s, end + 2) && !IsCharBoundary(s, end + 3);
        BoundaryWithinFour(s, end);
      }
      end := end - 1;
    }
    r := s[..end];
    forall k | 0 <= k <= max && ValidUtf8(s[..k])
      ensures k <= end
    {
      ValidPrefixIff(s, k);
    }
    ValidPrefixIff(s, end);
  }

  // ---------- The bundle ----------

  datatype LoadError = TooShort | WrongMagic | WrongVersion | Truncated | BadName | WrongPassphrase

  function Magic(): seq<Byte> {
    [0x42, 0x43, 0x49, 0x44]
  }

  const VERSION: Byte := 1

  /** Magic, version, name length, name, key blob. */
  ghost function Layout(name: seq<Byte>, blob: seq<Byte>): seq<Byte>
    requires |name| < 256
  {
    Magic() + [VERSION] + [|name|] + name + blob
  }

  /** Writes a bundle for an optional name and an encrypted key, unless encryption failed. */
  method Create(displayName: Option<seq<Byte>>, encrypted: Option<seq<Byte>>)
    returns (r: Option<seq<Byte>>, ghost name: seq<Byte>)
    requires displayName.Some? ==> ValidUtf8(displayName.value)
    ensures LongestValidPrefix(if displayName.Some? then displayName.value else [], 64, name) && |name| <= 64
    ensures r == if encrypted.Some? then Some([0x42, 0x43, 0x49, 0x44, 1, |name|] + name + encrypted.value) else None
  {
    hide LongestValidPrefix, ValidUtf8;
    NothingIsValid();
    var nameBytes := TruncateToByteLen(if displayName.Some? then displayName.value else [], 64);
    name := nameBytes;
    CutFits(if displayName.Some? then displayName.value else [], 64, name);
    if encrypted.None? {
      return None, name;
    }
    var out: seq<Byte> := [];
    out := out + Magic();
    out := out + [VERSION];
    out := out + [|nameBytes|];
    out := out + nameBytes;
    out := out + encrypted.value;
    assert out == [0x42, 0x43, 0x49, 0x44, 1, |name|] + name + encrypted.value;
    return Some(out), name;
  }

  lemma {:induction false} NothingIsValid()
    ensures ValidUtf8([])
  {
  }

  lemma {:induction false} CutFits(s: seq<Byte>, max: nat, r: seq<Byte>)
    requires LongestValidPrefix(s, max, r)
    ensures |r| <= max
  {
  }

  /** Reads a bundle; `decrypt` recovers an identity from a key blob or fails. */
  function Load<Identity>(bytes: seq<Byte>, decrypt: seq<Byte> -> Option<Identity>)
    : Result<(Identity, Option<seq<Byte>>), LoadError>
  {
    if |bytes| < 6 then Err(TooShort)
    else if bytes[0..4] != Magic() then Err(WrongMagic)
    else if bytes[4] != VERSION then Err(WrongVersion)
    else
      var end := 6 + bytes[5] as nat;
      if |bytes| < end + BLOB then Err(Truncated)
      else if bytes[5] > 0 && !ValidUtf8(bytes[6..end]) then Err(BadName)
      else
        var id := decrypt(bytes[end..end + BLOB]);
        if id.None? then Err(WrongPassphrase)
        else Ok((id.value, if bytes[5] == 0 then None else Some(bytes[6..end])))
  }

  lemma {:induction false} LayoutParts(name: seq<Byte>, blob: seq<Byte>, trailing: seq<Byte>)
    requires |name| < 256 && |blob| == BLOB
    ensures var bytes := Layout(name, blob) + trailing;
            && |bytes| >= 6 + |name| + BLOB && bytes[0..4] == Magic() && bytes[4] == VERSION && bytes[5] == |name|
            && bytes[6..6 + |name|] == name && bytes[6 + |name|..6 + |name| + BLOB] == blob
  {
    var bytes := Layout(name, blob) + trailing;
    assert bytes[0..4] == Magic();
    assert bytes[6..6 + |name|] == name;
    assert bytes[6 + |name|..6 + |name| + BLOB] == blob;
  }

  /** Loading a created bundle, even with bytes appended to it, recovers the identity and exactly the cut
      name, or no name if it was empty. */
  lemma {:induction false} LoadInvertsCreate<Identity>(name: seq<Byte>, blob: seq<Byte>, trailing: seq<Byte>,
                                                       decrypt: seq<Byte> -> Option<Identity>, id: Identity)
    requires |name| < 256 && ValidUtf8(name) && |blob| == 104 && decrypt(blob) == Some(id)
    ensures Load([0x42, 0x43, 0x49, 0x44, 1, |name|] + name + blob + trailing, decrypt)
            == Ok((id, if name == [] then None else Some(name)))
  {
    assert Layout(name, blob) == [0x42, 0x43, 0x49, 0x44, 1, |name|] + name + blob;
    hide Layout, ValidUtf8, Magic;
    LayoutParts(name, blob, trailing);
  }

  /** A bundle cut anywhere before the end of its key is refused. */
  lemma {:induction false} CutBundlesAreRefused<Identity>(name: seq<Byte>, blob: seq<Byte>, n: nat,
                                                         decrypt: seq<Byte> -> Option<Identity>)
    requires |name| < 256 && |blob| == 104 && n < 6 + |name| + 104
    ensures Load(([0x42, 0x43, 0x49, 0x44, 1, |name|] + name + blob)[..n], decrypt)
            == if n < 6 then Err(TooShort) else Err(Truncated)
  {
    var cut := ([0x42, 0x43, 0x49, 0x44, 1, |name|] + name + blob)[..n];
    if n >= 6 {
      assert cut[0..4] == Magic() && cut[4] == 1 && cut[5] == |name|;
    }
  }

  /** Why a file does not load, in the order of the tests. */
  lemma {:induction false} LoadErrors<Identity>(bytes: seq<Byte>, decrypt: seq<Byte> -> Option<Identity>)
    requires Load(bytes, decrypt).Err?
    ensures Load(bytes, decrypt) == Err(
              if |bytes| < 6 then TooShort
              else if bytes[..4] != [0x42, 0x43, 0x49, 0x44] then WrongMagic
              else if bytes[4] != 1 then WrongVersion
              else if |bytes| < 110 + bytes[5] as nat then Truncated
              else if !ValidUtf8(bytes[6..6 + bytes[5] as nat]) then BadName
              else WrongPassphrase)
  {
    NothingIsValid();
    hide ValidUtf8;
    if |bytes| >= 6 {
      assert bytes[0..4] == bytes[..4];
      if bytes[5] == 0 && |bytes| >= 110 {
        assert bytes[6..6] == [];
      }
    }
  }

  lemma {:induction false} SplitAt(bytes: seq<Byte>, end: nat, len: nat)
    requires 6 <= end && end + len <= |bytes| && bytes[0..4] == [0x42, 0x43, 0x49, 0x44] && bytes[4] == 1
    ensures [0x42, 0x43, 0x49, 0x44, 1, bytes[5]] + bytes[6..end] + bytes[end..end + len] == bytes[..end + len]
  {
    assert [0x42, 0x43, 0x49, 0x44, 1, bytes[5]] == bytes[0..4] + [bytes[4], bytes[5]] == bytes[..6];
    assert bytes[..end] == bytes[..6] + bytes[6..end];
    assert bytes[..end + len] == bytes[..end] + bytes[end..end + len];
  }

  /** Whatever loads starts with the layout of what was read: no other file is accepted. */
  lemma {:induction false} LoadAcceptsOnlyLayouts<Identity>(bytes: seq<Byte>, decrypt: seq<Byte> -> Option<Identity>)
    requires Load(bytes, decrypt).Ok?
    ensures var (id, shown) := Load(bytes, decrypt).value;
            var name := if shown.Some? then shown.value else [];
            |name| < 256
            && exists blob :: |blob| == 104 && decrypt(blob) == Some(id)
                              && [0x42, 0x43, 0x49, 0x44, 1, |name|] + name + blob <= bytes
    ensures Load(bytes, decrypt).value.1.Some?
            ==> ValidUtf8(Load(bytes, decrypt).value.1.value) && Load(bytes, decrypt).value.1.value != []
  {
    var end := 6 + bytes[5] as nat;
    var name, blob := bytes[6..end], bytes[end..end + BLOB];
    var (id, shown) := Load(bytes, decrypt).value;
    assert name == if shown.Some? then shown.value else [];
    assert bytes[0..4] == Magic() && bytes[4] == 1 && |name| == bytes[5];
    hide Load;
    SplitAt(bytes, end, BLOB);
    assert |blob| == 104 && decrypt(blob) == Some(id) && [0x42, 0x43, 0x49, 0x44, 1, |name|] + name + blob <= bytes;
  }
}
