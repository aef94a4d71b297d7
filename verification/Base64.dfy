/** Base64 (section 4 of RFC 4648): the library's encoder and decoder, their round trip, and the
    bounds of the decoder's stores into an output of computed size. */
module Base64 {
  import opened Strings

  type Byte = bv8

  // ----- the alphabet

  type Value = b: int | 0 <= b <= 64

  function Table(b: nat): char
    requires b < 64
  {
    if b < 16 then "ABCDEFGHIJKLMNOP"[b]
    else if b < 32 then "QRSTUVWXYZabcdef"[b - 16]
    else if b < 48 then "ghijklmnopqrstuv"[b - 32]
    else "wxyz0123456789+/"[b - 48]
  }

  /** None is the exception for a character that is not base64; '=' counts as 64. */
  function BackwardsTable(c: char): (b: Option<Value>)
    ensures b.Some? ==> (b.value == 64 <==> c == '=')
  {
    if 'A' <= c <= 'Z' then Some(c as int - 'A' as int)
    else if 'a' <= c <= 'z' then Some(c as int - 'a' as int + 26)
    else if '0' <= c <= '9' then Some(c as int - '0' as int + 52)
    else if c == '+' then Some(62)
    else if c == '/' then Some(63)
    else if c == '=' then Some(64)
    else None
  }

  lemma TableRow0()
    ensures BackwardsTable(Table(0)) == Some(0) && BackwardsTable(Table(1)) == Some(1)
    ensures BackwardsTable(Table(2)) == Some(2) && BackwardsTable(Table(3)) == Some(3)
    ensures BackwardsTable(Table(4)) == Some(4) && BackwardsTable(Table(5)) == Some(5)
    ensures BackwardsTable(Table(6)) == Some(6) && BackwardsTable(Table(7)) == Some(7)
  {}

  lemma TableRow1()
    ensures BackwardsTable(Table(8)) == Some(8) && BackwardsTable(Table(9)) == Some(9)
    ensures BackwardsTable(Table(10)) == Some(10) && BackwardsTable(Table(11)) == Some(11)
    ensures BackwardsTable(Table(12)) == Some(12) && BackwardsTable(Table(13)) == Some(13)
    ensures BackwardsTable(Table(14)) == Some(14) && BackwardsTable(Table(15)) == Some(15)
  {}

  lemma TableRow2()
    ensures BackwardsTable(Table(16)) == Some(16) && BackwardsTable(Table(17)) == Some(17)
    ensures BackwardsTable(Table(18)) == Some(18) && BackwardsTable(Table(19)) == Some(19)
    ensures BackwardsTable(Table(20)) == Some(20) && BackwardsTable(Table(21)) == Some(21)
    ensures BackwardsTable(Table(22)) == Some(22) && BackwardsTable(Table(23)) == Some(23)
  {}

  lemma TableRow3()
    ensures BackwardsTable(Table(24)) == Some(24) && BackwardsTable(Table(25)) == Some(25)
    ensures BackwardsTable(Table(26)) == Some(26) && BackwardsTable(Table(27)) == Some(27)
    ensures BackwardsTable(Table(28)) == Some(28) && BackwardsTable(Table(29)) == Some(29)
    ensures BackwardsTable(Table(30)) == Some(30) && BackwardsTable(Table(31)) == Some(31)
  {}

  lemma TableRow4()
    ensures BackwardsTable(Table(32)) == Some(32) && BackwardsTable(Table(33)) == Some(33)
    ensures BackwardsTable(Table(34)) == Some(34) && BackwardsTable(Table(35)) == Some(35)
    ensures BackwardsTable(Table(36)) == Some(36) && BackwardsTable(Table(37)) == Some(37)
    ensures BackwardsTable(Table(38)) == Some(38) && BackwardsTable(Table(39)) == Some(39)
  {}

  lemma TableRow5()
    ensures BackwardsTable(Table(40)) == Some(40) && BackwardsTable(Table(41)) == Some(41)
    ensures BackwardsTable(Table(42)) == Some(42) && BackwardsTable(Table(43)) == Some(43)
    ensures BackwardsTable(Table(44)) == Some(44) && BackwardsTable(Table(45)) == Some(45)
    ensures BackwardsTable(Table(46)) == Some(46) && BackwardsTable(Table(47)) == Some(47)
  {}

  lemma TableRow6()
    ensures BackwardsTable(Table(48)) == Some(48) && BackwardsTable(Table(49)) == Some(49)
    ensures BackwardsTable(Table(50)) == Some(50) && BackwardsTable(Table(51)) == Some(51)
    ensures BackwardsTable(Table(52)) == Some(52) && BackwardsTable(Table(53)) == Some(53)
    ensures BackwardsTable(Table(54)) == Some(54) && BackwardsTable(Table(55)) == Some(55)
  {}

  lemma TableRow7()
    ensures BackwardsTable(Table(56)) == Some(56) && BackwardsTable(Table(57)) == Some(57)
    ensures BackwardsTable(Table(58)) == Some(58) && BackwardsTable(Table(59)) == Some(59)
    ensures BackwardsTable(Table(60)) == Some(60) && BackwardsTable(Table(61)) == Some(61)
    ensures BackwardsTable(Table(62)) == Some(62) && BackwardsTable(Table(63)) == Some(63)
  {}

  /** The decoder's arithmetic inverts the encoder's table. */
  lemma TableIsUndone(b: nat)
    requires b < 64
    ensures BackwardsTable(Table(b)) == Some(b)
  {
    hide Table, BackwardsTable;
    if b < 32 {
      TableRow0(); TableRow1(); TableRow2(); TableRow3();
    } else {
      TableRow4(); TableRow5(); TableRow6(); TableRow7();
    }
  }

  /** The alphabet of RFC 4648. */
  lemma AlphabetIs(b: nat)
    requires b < 64
    ensures b < 26 ==> Table(b) as int == 'A' as int + b
    ensures 26 <= b < 52 ==> Table(b) as int == 'a' as int + (b - 26)
    ensures 52 <= b < 62 ==> Table(b) as int == '0' as int + (b - 52)
    ensures Table(62) == '+' && Table(63) == '/'
  {
    TableIsUndone(b);
    TableRow7();
    hide Table;
    assert b < 62 ==> Table(b) != '+' && Table(b) != '/' && Table(b) != '=';
  }

  // ----- bits

  // three bytes as four groups of six bits
  function Group0(x: bv8): bv8 { (x & 0xFC) >> 2 }
  function Group1(x: bv8, y: bv8): bv8 { ((x & 0x03) << 4) | ((y & 0xF0) >> 4) }
  function Group2(y: bv8, z: bv8): bv8 { ((y & 0x0F) << 2) | ((z & 0xC0) >> 6) }
  function Group3(z: bv8): bv8 { z & 0x3F }

  lemma GroupsAreSmall(x: bv8, y: bv8, z: bv8)
    ensures Group0(x) < 64 && Group1(x, y) < 64 && Group2(y, z) < 64 && Group3(z) < 64
  {}

  /** The four groups are the bits of the three bytes, from left to right. */
  lemma GroupsAreTheBits(x: bv8, y: bv8, z: bv8)
    ensures (Group0(x) as bv24 << 18) | (Group1(x, y) as bv24 << 12) | (Group2(y, z) as bv24 << 6) | Group3(z) as bv24
         == (x as bv24 << 16) | (y as bv24 << 8) | z as bv24
  {}

  function Code(group: bv8): char
    requires group < 64
  {
    Table(group as nat)
  }

  /** static_cast of an int to an eight-bit type. */
  function Truncate(n: bv16): bv8 {
    (n & 0xFF) as bv8
  }

  // three bytes made of four values between 0 and 64
  function Bits0(b0: bv8, b1: bv8): bv8 { Truncate((b0 as bv16 << 2) | (b1 as bv16 >> 4)) }
  function Bits1(b1: bv8, b2: bv8): bv8 { Truncate((b1 as bv16 << 4) | (b2 as bv16 >> 2)) }
  function Bits2(b2: bv8, b3: bv8): bv8 { Truncate((b2 as bv16 << 6) | b3 as bv16) }

  lemma BitsOfGroups(x: bv8, y: bv8, z: bv8)
    ensures Bits0(Group0(x), Group1(x, y)) == x
    ensures Bits1(Group1(x, y), Group2(y, z)) == y
    ensures Bits2(Group2(y, z), Group3(z)) == z
  {}

  function Byte0(b0: Value, b1: Value): Byte { Bits0(b0 as bv8, b1 as bv8) }
  function Byte1(b1: Value, b2: Value): Byte { Bits1(b1 as bv8, b2 as bv8) }
  function Byte2(b2: Value, b3: Value): Byte { Bits2(b2 as bv8, b3 as bv8) }

  /** A '=' in the first half of a quad is no padding: at the first place it counts as 0, at the second
      one it leaves a bit in the first byte. */
  lemma MisplacedPadding(b0: Value, b1: Value, b2: Value)
    ensures Byte0(64, b1) == Byte0(0, b1)
    ensures Byte0(b0, 64) == Byte0(b0, 0) | 4 && Byte1(64, b2) == Byte1(0, b2)
  {
    hide Bits0, Bits1;
    BitsOfPadding(b0 as bv8, b1 as bv8, b2 as bv8);
  }

  lemma BitsOfPadding(b0: bv8, b1: bv8, b2: bv8)
    ensures Bits0(64, b1) == Bits0(0, b1) && Bits0(b0, 64) == Bits0(b0, 0) | 4 && Bits1(64, b2) == Bits1(0, b2)
  {}

  lemma GroupAndBack(e: bv8)
    requires e < 64
    ensures (e as nat) as bv8 == e && e as nat < 64
  {}

  // ----- encoding

  /** One to three bytes as four characters. */
  function EncodeGroup(b: seq<Byte>): (s: string)
    requires 1 <= |b| <= 3
    ensures |s| == 4
  {
    var x := b[0];
    var y := if |b| > 1 then b[1] else 0;
    var z := if |b| > 2 then b[2] else 0;
    GroupsAreSmall(x, y, z);
    [Code(Group0(x)), Code(Group1(x, y)),
     if |b| > 1 then Code(Group2(y, z)) else '=',
     if |b| > 2 then Code(Group3(z)) else '=']
  }

  /** Where the last group of three bytes, or what there is of it, begins. */
  function LastGroup(n: nat): (k: nat)
    requires n > 0
    ensures k < n <= k + 3 && k % 3 == 0
  {
    n - 1 - (n - 1) % 3
  }

  function Encode(b: seq<Byte>): (s: string)
    ensures |s| == (|b| + 2) / 3 * 4
    decreases |b|
  {
    if b == [] then []
    else
      var k := LastGroup(|b|);
      Encode(b[..k]) + EncodeGroup(b[k..])
  }

  lemma EncodeNext(b: seq<Byte>, n: nat, j: nat)
    requires 3 * n < j <= |b| && j <= 3 * n + 3
    ensures Encode(b[..j]) == Encode(b[..3 * n]) + EncodeGroup(b[3 * n..j])
  {
    hide EncodeGroup;
    var i := 3 * n;
    assert LastGroup(j) == i;
    assert b[..j][..i] == b[..i] && b[..j][i..] == b[i..j];
  }

  /** The body of the encoder's loop: the characters for the group that begins at i. */
  method EncodeFrom(bytes: seq<Byte>, i: nat) returns (res: string)
    requires i < |bytes|
    ensures res == EncodeGroup(bytes[i..if i + 3 < |bytes| then i + 3 else |bytes|])
  {
    hide Code, EncodeGroup, Group0, Group1, Group2, Group3;
    ghost var group := bytes[i..if i + 3 < |bytes| then i + 3 else |bytes|];
    GroupChars(group);
    var x := bytes[i];
    BitsOfFirst(x);
    var b := (x & 0xFC) >> 2;
    res := [Code(b)];
    b := (x & 0x03) << 4;
    if i + 1 < |bytes| {
      var y := bytes[i + 1];
      BitsOfSecond(x, y);
      b := b | ((y & 0xF0) >> 4);
      res := res + [Code(b)];
      b := (y & 0x0F) << 2;
      if i + 2 < |bytes| {
        var z := bytes[i + 2];
        BitsOfThird(y, z);
        b := b | ((z & 0xC0) >> 6);
        res := res + [Code(b)];
        b := z & 0x3F;
        res := res + [Code(b)];
      } else {
        res := res + [Code(b)];
        res := res + ['='];
      }
    } else {
      res := res + [Code(b)];
      res := res + ['='];
      res := res + ['='];
    }
  }

  method Base64Encode(bytes: seq<Byte>) returns (res: string)
    ensures res == Encode(bytes)
  {
    hide Encode, EncodeGroup;
    res := "";
    EncodeNothing();
    var i := 0;
    ghost var n := 0;
    while i < |bytes|
      invariant i == 3 * n && i <= |bytes| + 2
      invariant res == Encode(bytes[..if i < |bytes| then i else |bytes|])
    {
      ghost var next := if i + 3 < |bytes| then i + 3 else |bytes|;
      EncodeNext(bytes, n, next);
      var four := EncodeFrom(bytes, i);
      assert Encode(bytes[..next]) == Encode(bytes[..i]) + four;
      res := res + four;
      i, n := i + 3, n + 1;
    }
    assert bytes[..|bytes|] == bytes;
  }

  lemma GroupChars(b: seq<Byte>)
    requires 1 <= |b| <= 3
    ensures Group0(b[0]) < 64
    ensures |b| == 1 ==>
              (Group1(b[0], 0) < 64 && EncodeGroup(b) == [Code(Group0(b[0])), Code(Group1(b[0], 0)), '=', '='])
    ensures |b| == 2 ==>
              (Group1(b[0], b[1]) < 64 && Group2(b[1], 0) < 64
               && EncodeGroup(b) == [Code(Group0(b[0])), Code(Group1(b[0], b[1])), Code(Group2(b[1], 0)), '='])
    ensures |b| == 3 ==>
              (Group1(b[0], b[1]) < 64 && Group2(b[1], b[2]) < 64 && Group3(b[2]) < 64
               && EncodeGroup(b) == [Code(Group0(b[0])), Code(Group1(b[0], b[1])),
                                     Code(Group2(b[1], b[2])), Code(Group3(b[2]))])
  {
    hide Code, Group0, Group1, Group2, Group3;
    GroupsAreSmall(b[0], if |b| > 1 then b[1] else 0, if |b| > 2 then b[2] else 0);
  }

  lemma EncodeNothing()
    ensures Encode([]) == []
  {}

  // what the encoder's bit operations make of each byte
  lemma BitsOfFirst(x: bv8)
    ensures (x & 0xFC) >> 2 == Group0(x) < 64 && (x & 0x03) << 4 == Group1(x, 0) < 64
  {}

  lemma BitsOfSecond(x: bv8, y: bv8)
    ensures ((x & 0x03) << 4) | ((y & 0xF0) >> 4) == Group1(x, y) < 64
    ensures (y & 0x0F) << 2 == Group2(y, 0) < 64
  {}

  lemma BitsOfThird(y: bv8, z: bv8)
    ensures ((y & 0x0F) << 2) | ((z & 0xC0) >> 6) == Group2(y, z) < 64
    ensures z & 0x3F == Group3(z) < 64
  {}

  // ----- decoding

  datatype DecodeError = WrongSize | NotBase64
  datatype Decoded = Bytes(bytes: seq<Byte>) | Invalid(error: DecodeError)

  /** The stores that four characters cause; None when one of them is not base64. */
  function Stores(q: string): (r: Option<seq<Byte>>)
    requires |q| == 4
    ensures r.Some? ==> 1 <= |r.value| <= 3
    ensures r.Some? ==> |r.value| == if q[2] == '=' then 1 else if q[3] == '=' then 2 else 3
  {
    var (v0, v1, v2, v3) := (BackwardsTable(q[0]), BackwardsTable(q[1]), BackwardsTable(q[2]), BackwardsTable(q[3]));
    if v0.None? || v1.None? || v2.None? || v3.None? then None
    else
      var (b0, b1, b2, b3) := (v0.value, v1.value, v2.value, v3.value);
      Some([Byte0(b0, b1)]
           + if b2 < 64 then [Byte1(b1, b2)] + if b3 < 64 then [Byte2(b2, b3)] else []
             else [])
  }

  /** All stores for an input of whole quads, in order. */
  function AllStores(s: string): (r: Option<seq<Byte>>)
    requires |s| % 4 == 0
    ensures r.Some? ==> |r.value| <= |s| / 4 * 3
    decreases |s|
  {
    if s == [] then Some([])
    else
      var k := |s| - 4;
      match (AllStores(s[..k]), Stores(s[k..]))
      case (Some(before), Some(last)) => Some(before + last)
      case _ => None
  }

  /** The size the output is given beforehand. */
  function DecodedSize(s: string): nat
    requires |s| % 4 == 0 && s != []
  {
    |s| * 3 / 4 - (if s[|s| - 1] == '=' then 1 else 0) - (if s[|s| - 2] == '=' then 1 else 0)
  }

  function Zeros(n: nat): seq<Byte> {
    seq(n, i => 0)
  }

  function Decode(s: string): Decoded {
    if s == [] then Bytes([])
    else if |s| % 4 != 0 then Invalid(WrongSize)
    else
      match AllStores(s)
      case None => Invalid(NotBase64)
      case Some(stored) =>
        StoresFit(s);
        Bytes(stored + Zeros(DecodedSize(s) - |stored|))
  }

  /** Every store is inside the output, for every input of whole quads, wherever it has a '='. */
  lemma StoresFit(s: string)
    requires |s| % 4 == 0 && s != [] && AllStores(s).Some?
    ensures |AllStores(s).value| <= DecodedSize(s)
  {
    hide AllStores, Stores, DecodedSize;
    var k := |s| - 4;
    LastStores(s, k / 4);
    SizeOfQuads(s, k / 4);
  }

  /** The stores fill the output exactly when '=' in the second half of a quad is only padding at the
      end: in no quad but the last, and in the last one not before another character. */
  lemma StoresFillExactly(s: string)
    requires |s| % 4 == 0 && s != [] && AllStores(s).Some?
    ensures |AllStores(s).value| == DecodedSize(s) <==> PaddedAtEndOnly(s)
  {
    hide AllStores, Stores, Unpadded, DecodedSize;
    var k := |s| - 4;
    LastStores(s, k / 4);
    SizeOfQuads(s, k / 4);
    FullExactly(s[..k]);
  }

  /** The last quad's share of the stores. */
  lemma LastStores(s: string, m: nat)
    requires |s| == 4 * m + 4 && AllStores(s).Some?
    ensures var before := AllStores(s[..4 * m]);
            && before.Some? && |before.value| <= 3 * m
            && |AllStores(s).value|
            == |before.value| + (if s[4 * m + 2] == '=' then 1 else if s[4 * m + 3] == '=' then 2 else 3)
  {
    hide Stores;
    assert s[4 * m..][2] == s[4 * m + 2] && s[4 * m..][3] == s[4 * m + 3];
  }

  lemma SizeOfQuads(s: string, m: nat)
    requires |s| == 4 * m + 4
    ensures DecodedSize(s) == 3 * m + 3 - (if s[4 * m + 3] == '=' then 1 else 0) - (if s[4 * m + 2] == '=' then 1 else 0)
  {}

  /** No quad has a '=' in its second half. */
  predicate Unpadded(s: string)
    requires |s| % 4 == 0
    decreases |s|
  {
    s == [] || (Unpadded(s[..|s| - 4]) && s[|s| - 2] != '=' && s[|s| - 1] != '=')
  }

  predicate PaddedAtEndOnly(s: string)
    requires |s| >= 4 && |s| % 4 == 0
  {
    Unpadded(s[..|s| - 4]) && (s[|s| - 2] == '=' ==> s[|s| - 1] == '=')
  }

  lemma NoStores()
    ensures AllStores([]) == Some([])
  {}

  lemma {:induction false} FullExactly(s: string)
    requires |s| % 4 == 0 && AllStores(s).Some?
    ensures |AllStores(s).value| == |s| / 4 * 3 <==> Unpadded(s)
    decreases |s|
  {
    hide AllStores, Stores;
    if s == [] {
      assert AllStores([]) == Some([]) by { NoStores(); }
    } else {
      var k := |s| - 4;
      LastStores(s, k / 4);
      FullExactly(s[..k]);
    }
  }

  lemma AllStoresNext(s: string, i: nat)
    requires |s| % 4 == 0 && i % 4 == 0 && i + 4 <= |s|
    ensures AllStores(s[..i + 4])
         == match (AllStores(s[..i]), Stores(s[i..i + 4]))
            case (Some(before), Some(last)) => Some(before + last)
            case _ => None
  {
    hide Stores;
    assert s[..i + 4][..i] == s[..i] && s[..i + 4][i..] == s[i..i + 4];
  }

  /** One bad quad spoils the whole input. */
  lemma {:induction false} BadQuadIsFound(s: string, i: nat)
    requires |s| % 4 == 0 && i % 4 == 0 && i <= |s| && AllStores(s[..i]).None?
    ensures AllStores(s).None?
    decreases |s| - i
  {
    hide AllStores;
    if i == |s| {
      assert s[..i] == s;
    } else {
      AllStoresNext(s, i);
      BadQuadIsFound(s, i + 4);
    }
  }

  /** The stores of a prefix leave room for those of the next quad. */
  lemma PrefixFits(s: string, i: nat)
    requires |s| % 4 == 0 && i % 4 == 0 && i + 4 <= |s| && AllStores(s[..i + 4]).Some?
    ensures |AllStores(s[..i + 4]).value| <= DecodedSize(s)
  {
    hide AllStores;
    if i + 4 == |s| {
      assert s[..i + 4] == s;
      StoresFit(s);
    } else {
      assert |s| * 3 / 4 == |s| / 4 * 3;
      assert (i + 4) / 4 * 3 + 3 <= |s| / 4 * 3;
    }
  }

  method Put<T>(a: array<T>, j: nat, v: T)
    requires j < a.Length
    modifies a
    ensures a[..] == old(a[..])[j := v]
  {
    a[j] := v;
  }

  /** The stores of one quad, from position j on. */
  method StoreQuad(quad: string, bytes: array<Byte>, j: nat) returns (next: nat, ok: bool)
    requires |quad| == 4 && (Stores(quad).Some? ==> j + |Stores(quad).value| <= bytes.Length)
    modifies bytes
    ensures ok <==> Stores(quad).Some?
    ensures ok ==> next == j + |Stores(quad).value|
                   && bytes[..next] == old(bytes[..j]) + Stores(quad).value
                   && bytes[next..] == old(bytes[j..])[next - j..]
  {
    hide BackwardsTable, Byte0, Byte1, Byte2;
    var (v0, v1, v2, v3) := (BackwardsTable(quad[0]), BackwardsTable(quad[1]), BackwardsTable(quad[2]), BackwardsTable(quad[3]));
    if v0.None? || v1.None? || v2.None? || v3.None? {
      return j, false;
    }
    var (b0, b1, b2, b3) := (v0.value, v1.value, v2.value, v3.value);
    next, ok := j, true;
    Put(bytes, next, Byte0(b0, b1));
    next := next + 1;
    if b2 < 64 {
      Put(bytes, next, Byte1(b1, b2));
      next := next + 1;
      if b3 < 64 {
        Put(bytes, next, Byte2(b2, b3));
        next := next + 1;
      }
    }
  }

  method Base64Decode(input: string) returns (r: Decoded)
    ensures r == Decode(input)
  {
    hide AllStores, DecodedSize, Stores, Zeros, BackwardsTable;
    if input == [] {
      return Bytes([]);
    }
    if |input| % 4 != 0 {
      return Invalid(WrongSize);
    }
    var size := SizeOf(input);
    var bytes := ZeroBytes(size);
    var j := 0;
    var i := 0;
    NoStores();
    assert input[..0] == [];
    while i < |input|
      invariant i % 4 == 0 && i <= |input|
      invariant AllStores(input[..i]).Some? && j == |AllStores(input[..i]).value| <= size
      invariant bytes[..j] == AllStores(input[..i]).value && bytes[j..] == Zeros(size - j)
    {
      AllStoresNext(input, i);
      if AllStores(input[..i + 4]).Some? {
        PrefixFits(input, i);
      }
      ghost var at := j;
      var ok;
      j, ok := StoreQuad(input[i..i + 4], bytes, j);
      if !ok {
        BadQuadIsFound(input, i + 4);
        return Invalid(NotBase64);
      }
      ZerosTail(size - at, j - at);
      i := i + 4;
    }
    assert input[..i] == input;
    assert bytes[..] == bytes[..j] + bytes[j..];
    r := Bytes(bytes[..]);
  }

  method ZeroBytes(size: nat) returns (bytes: array<Byte>)
    ensures fresh(bytes) && bytes.Length == size && bytes[0..] == Zeros(size)
  {
    bytes := new Byte[size](_ => 0);
  }

  lemma ZerosTail(n: nat, k: nat)
    requires k <= n
    ensures Zeros(n)[k..] == Zeros(n - k)
  {}

  method SizeOf(input: string) returns (size: nat)
    requires |input| % 4 == 0 && input != []
    ensures size == DecodedSize(input)
  {
    size := |input| * 3 / 4;
    if input[|input| - 1] == '=' {
      size := size - 1;
    }
    if input[|input| - 2] == '=' {
      size := size - 1;
    }
  }

  predicate IsBase64Char(c: char) {
    IsAlnum(c) || c == '+' || c == '/' || c == '='
  }

  lemma QuadExists(q: string)
    requires |q| == 4
    ensures Stores(q).Some? <==> IsBase64Char(q[0]) && IsBase64Char(q[1]) && IsBase64Char(q[2]) && IsBase64Char(q[3])
  {
    hide Byte0, Byte1, Byte2;
  }

  lemma {:induction false} StoresExist(s: string)
    requires |s| % 4 == 0
    ensures AllStores(s).Some? <==> forall i :: 0 <= i < |s| ==> IsBase64Char(s[i])
    decreases |s|
  {
    hide Stores, IsBase64Char;
    if s != [] {
      var k := |s| - 4;
      StoresExist(s[..k]);
      QuadExists(s[k..]);
      assert forall i :: 0 <= i < k ==> s[..k][i] == s[i];
      assert forall i :: 0 <= i < 4 ==> s[k..][i] == s[k + i];
      assert forall i :: k <= i < |s| ==> s[i] == s[k..][i - k];
    }
  }

  /** Decoding succeeds on exactly the inputs of whole quads of base64 characters; other lengths and
      other characters have an error each. What is decoded has the computed size: the stores, and
      zeros for what they do not fill. */
  lemma DecodesExactly(s: string)
    ensures Decode(s).Bytes? <==> |s| % 4 == 0 && forall i :: 0 <= i < |s| ==> IsBase64Char(s[i])
    ensures Decode(s) == Invalid(WrongSize) <==> |s| % 4 != 0
    ensures Decode(s).Bytes? && s != [] ==>
              var bytes, stored := Decode(s).bytes, AllStores(s);
              && stored.Some? && |bytes| == DecodedSize(s) && stored.value <= bytes
              && forall i :: |stored.value| <= i < |bytes| ==> bytes[i] == 0
  {
    hide AllStores, IsBase64Char, DecodedSize;
    if |s| % 4 == 0 {
      StoresExist(s);
      if s != [] && AllStores(s).Some? {
        StoresFit(s);
      }
    }
  }

  /** The test vectors of section 10 of RFC 4648. */
  lemma Vectors()
    ensures EncodeGroup([0x66]) == "Zg==" && EncodeGroup([0x66, 0x6f]) == "Zm8="
    ensures EncodeGroup([0x66, 0x6f, 0x6f]) == "Zm9v" && EncodeGroup([0x62, 0x61, 0x72]) == "YmFy"
  {}

  // ----- the round trip

  lemma CodeIsRead(group: bv8)
    requires group < 64
    ensures group as nat < 64 && BackwardsTable(Code(group)) == Some(group as nat)
  {
    hide Table, BackwardsTable;
    GroupAndBack(group);
    TableIsUndone(group as nat);
  }

  lemma BytesAreBits(g0: bv8, g1: bv8, g2: bv8, g3: bv8)
    requires g0 < 64 && g1 < 64 && g2 < 64 && g3 < 64
    ensures g0 as nat < 64 && g1 as nat < 64 && g2 as nat < 64 && g3 as nat < 64
    ensures Byte0(g0 as nat, g1 as nat) == Bits0(g0, g1)
    ensures Byte1(g1 as nat, g2 as nat) == Bits1(g1, g2)
    ensures Byte2(g2 as nat, g3 as nat) == Bits2(g2, g3)
  {
    hide Bits0, Bits1, Bits2;
    GroupAndBack(g0);
    GroupAndBack(g1);
    GroupAndBack(g2);
    GroupAndBack(g3);
  }

  lemma ValuesAreStored(q: string, v0: Value, v1: Value, v2: Value, v3: Value)
    requires |q| == 4
    requires BackwardsTable(q[0]) == Some(v0) && BackwardsTable(q[1]) == Some(v1)
    requires BackwardsTable(q[2]) == Some(v2) && BackwardsTable(q[3]) == Some(v3)
    ensures v2 == 64 ==> Stores(q) == Some([Byte0(v0, v1)])
    ensures v2 < 64 == v3 ==> Stores(q) == Some([Byte0(v0, v1), Byte1(v1, v2)])
    ensures v2 < 64 && v3 < 64 ==> Stores(q) == Some([Byte0(v0, v1), Byte1(v1, v2), Byte2(v2, v3)])
  {
    hide BackwardsTable, Byte0, Byte1, Byte2;
    var (x, y, z) := (Byte0(v0, v1), Byte1(v1, v2), Byte2(v2, v3));
    assert [x] + [] == [x];
    assert [x] + ([y] + []) == [x, y];
    assert [x] + ([y] + [z]) == [x, y, z];
  }

  lemma GroupIsRead(b: seq<Byte>)
    requires 1 <= |b| <= 3
    ensures Stores(EncodeGroup(b)) == Some(b)
  {
    hide Code, BackwardsTable, Byte0, Byte1, Byte2, Bits0, Bits1, Bits2;
    hide Group0, Group1, Group2, Group3, EncodeGroup, Stores;
    var x, y, z := b[0], if |b| > 1 then b[1] else 0, if |b| > 2 then b[2] else 0;
    var g0, g1, g2, g3 := Group0(x), Group1(x, y), Group2(y, z), Group3(z);
    GroupsAreSmall(x, y, z);
    GroupChars(b);
    BitsOfGroups(x, y, z);
    BytesAreBits(g0, g1, g2, g3);
    PaddingIsRead();
    CodeIsRead(g0);
    CodeIsRead(g1);
    CodeIsRead(g2);
    CodeIsRead(g3);
    ValuesAreStored(EncodeGroup(b), g0 as nat, g1 as nat,
                    if |b| > 1 then g2 as nat else 64, if |b| > 2 then g3 as nat else 64);
    assert b == if |b| == 1 then [x] else if |b| == 2 then [x, y] else [x, y, z];
  }

  lemma PaddingIsRead()
    ensures BackwardsTable('=') == Some(64)
  {}

  lemma {:induction false} StoresOfEncoding(b: seq<Byte>)
    ensures AllStores(Encode(b)) == Some(b)
    decreases |b|
  {
    hide AllStores, Stores, EncodeGroup;
    if b == [] {
      NoStores();
    } else {
      var k := LastGroup(|b|);
      StoresOfEncoding(b[..k]);
      GroupIsRead(b[k..]);
      StoresOfBoth(Encode(b[..k]), EncodeGroup(b[k..]));
      assert b == b[..k] + b[k..];
    }
  }

  lemma StoresOfBoth(front: string, quad: string)
    requires |front| % 4 == 0 && |quad| == 4 && |front + quad| % 4 == 0
    requires AllStores(front).Some? && Stores(quad).Some?
    ensures AllStores(front + quad) == Some(AllStores(front).value + Stores(quad).value)
  {
    hide Stores;
    var s := front + quad;
    assert s[..|s| - 4] == front && s[|s| - 4..] == quad;
  }

  /** Round trip: every byte sequence is encoded in four characters for each three bytes begun, and
      decoding gives it back exactly, with nothing behind it. */
  lemma RoundTrip(b: seq<Byte>)
    ensures |Encode(b)| == (|b| + 2) / 3 * 4
    ensures Decode(Encode(b)) == Bytes(b)
  {
    hide AllStores, Encode;
    StoresOfEncoding(b);
    if b != [] {
      EncodedSize(b);
      assert b + Zeros(0) == b;
    } else {
      EncodeNothing();
    }
  }

  lemma SizeFromTail(front: string, last: string, m: nat)
    requires |front| == 4 * m && |last| == 4
    ensures |front + last| % 4 == 0
    ensures DecodedSize(front + last)
         == 3 * m + 3 - (if last[3] == '=' then 1 else 0) - (if last[2] == '=' then 1 else 0)
  {
    var s := front + last;
    assert |s| == 4 * (m + 1);
    assert s[|s| - 1] == last[3] && s[|s| - 2] == last[2];
  }

  lemma EncodedLength(b: seq<Byte>, m: nat)
    requires |b| == 3 * m
    ensures |Encode(b)| == 4 * m
  {
    hide Encode;
    assert (3 * m + 2) / 3 == m;
  }

  lemma EncodedSize(b: seq<Byte>)
    requires b != []
    ensures Encode(b) != [] && DecodedSize(Encode(b)) == |b|
  {
    hide EncodeGroup, DecodedSize;
    var m := (|b| - 1) / 3;
    assert LastGroup(|b|) == 3 * m;
    var front, last := Encode(b[..3 * m]), EncodeGroup(b[3 * m..]);
    EncodedLength(b[..3 * m], m);
    PaddingMarksSize(b[3 * m..]);
    SizeFromTail(front, last, m);
  }

  lemma PaddingMarksSize(b: seq<Byte>)
    requires 1 <= |b| <= 3
    ensures (EncodeGroup(b)[2] == '=' <==> |b| == 1) && (EncodeGroup(b)[3] == '=' <==> |b| <= 2)
  {
    GroupIsRead(b);
  }

  /** Different byte sequences have different encodings. */
  lemma Injective(a: seq<Byte>, b: seq<Byte>)
    requires Encode(a) == Encode(b)
    ensures a == b
  {
    RoundTrip(a);
    RoundTrip(b);
  }
}
