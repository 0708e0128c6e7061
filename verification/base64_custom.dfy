/** `ComicParser.decode_base64_custom`: a hand-written base64 decoder over the
    65-symbol table of section 4 of RFC 4648 (`=` at index 64).  It reads four
    symbols per group, always emits the first byte, emits the second only when
    the third symbol is not `=` and the third only when the fourth is not `=`,
    and finally converts the list with `bytes(...)`. */
module Base64Custom {
  import opened Wrappers
  import opened Bits
  import opened PyText

  type byte = x: int | 0 <= x < 256

  const Upper: string := "ABCDEFGHIJKLMNOPQRSTUVWXYZ"
  const Lower: string := "abcdefghijklmnopqrstuvwxyz"
  const DecimalDigits: string := "0123456789"
  /** The source's `keyStr`, written as the concatenation of its four runs. */
  const KeyStr: string := Upper + Lower + DecimalDigits + "+/="
  /** The same table, generated from its character ranges (see `KeyStrIsAlphabet`). */
  const Alphabet: string := Table(65)
  const Pad: nat := 64

  /** The ways the source's decoder raises: `T[e]` past the end (`IndexError`),
      `keyStr.index` of an unknown symbol (`ValueError`) and `bytes(result)` with
      a value above 255 (`ValueError`). */
  datatype DecodeError = IndexOutOfRange | NotInAlphabet(c: char) | ByteOutOfRange

  // ---------------------------------------------------------------------------
  // The alphabet

  /** Reference description of the table by character ranges. */
  function SymbolAt(i: nat): char {
    if i < 26 then ('A' as int + i) as char
    else if i < 52 then ('a' as int + (i - 26)) as char
    else if i < 62 then ('0' as int + (i - 52)) as char
    else if i == 62 then '+'
    else if i == 63 then '/'
    else '='
  }

  /** The first `n` symbols of the table, generated from `SymbolAt`. */
  function Table(n: nat): (t: string)
    ensures |t| == n && forall i :: 0 <= i < n ==> t[i] == SymbolAt(i)
  {
    if n == 0 then [] else Table(n - 1) + [SymbolAt(n - 1)]
  }

  /** Reference inverse of `SymbolAt`, by character ranges. */
  function SymbolValue(c: char): Option<nat> {
    if 'A' <= c <= 'Z' then Some(c as int - 'A' as int)
    else if 'a' <= c <= 'z' then Some(c as int - 'a' as int + 26)
    else if '0' <= c <= '9' then Some(c as int - '0' as int + 52)
    else if c == '+' then Some(62)
    else if c == '/' then Some(63)
    else if c == '=' then Some(64)
    else None
  }

  /** The literal table and the generated one are the same string. */
  lemma KeyStrIsAlphabet()
    ensures KeyStr == Alphabet
  {
    assert forall i :: 0 <= i < 26 ==> Upper[i] == ('A' as int + i) as char;
    assert forall i :: 0 <= i < 26 ==> Lower[i] == ('a' as int + i) as char;
    assert forall i :: 0 <= i < 10 ==> DecimalDigits[i] == ('0' as int + i) as char;
    assert forall i :: 0 <= i < 65 ==> KeyStr[i] == Alphabet[i];
  }

  /** `SymbolValue` inverts `SymbolAt`, and characters outside the ranges are
      not in the table. */
  lemma SymbolValueInverts(c: char)
    ensures SymbolValue(c).Some? ==> SymbolValue(c).value < 65 && SymbolAt(SymbolValue(c).value) == c
    ensures SymbolValue(c).None? ==> forall i :: 0 <= i < 65 ==> SymbolAt(i) != c
  {
  }

  lemma SymbolAtInjective(i: nat, j: nat)
    requires i < 65 && j < 65 && i != j
    ensures SymbolAt(i) != SymbolAt(j)
  {
  }

  /** `keyStr.index(c)` agrees with the range description: every table symbol
      occurs exactly once, at the position `SymbolValue` names. */
  lemma IndexOfAlphabet(c: char)
    ensures IndexOf(Alphabet, c) == SymbolValue(c)
  {
    SymbolValueInverts(c);
    match SymbolValue(c)
    case None =>
      assert c !in Alphabet;
    case Some(v) =>
      forall j | 0 <= j < v ensures Alphabet[j] != c {
        SymbolAtInjective(j, v);
      }
      FirstIndex(Alphabet, c, v);
  }

  /** A character is a table symbol exactly when `SymbolValue` knows it. */
  predicate IsSymbol(c: char) {
    SymbolValue(c).Some?
  }

  lemma IsSymbolInKeyStr(c: char)
    ensures IsSymbol(c) <==> c in KeyStr
  {
    KeyStrIsAlphabet();
    IndexOfAlphabet(c);
  }

  lemma SymbolValueOf(v: nat)
    requires v < 65
    ensures SymbolValue(SymbolAt(v)) == Some(v)
  {
  }

  // ---------------------------------------------------------------------------
  // The decoder as written

  /** The bytes one group of symbol indices `b d f g` contributes, computed with
      the source's shifts, masks and ORs. */
  function GroupBytes(b: nat, d: nat, f: nat, g: nat): (r: seq<int>)
    requires b < 65 && d < 65 && f < 65 && g < 65
    ensures |r| == 1 + (if f != Pad then 1 else 0) + (if g != Pad then 1 else 0)
    ensures b < Pad <==> forall i :: 0 <= i < |r| ==> 0 <= r[i] < 256
    ensures r[0] == 4 * b + (if d < Pad then d / 16 else if b % 2 == 0 then 4 else 0)
    ensures f != Pad ==> r[1] == 16 * (d % 16) + f / 4
    ensures g != Pad ==> r[|r| - 1] == 64 * (f % 4) + g
  {
    var b1 := Or(Shl(b, 2), Shr(d, 4));
    var d1 := Or(Shl(And(d, 15), 4), Shr(f, 2));
    var h := Or(Shl(And(f, 3), 6), g);
    var r := [b1] + (if f != Pad then [d1] else []) + (if g != Pad then [h] else []);
    GroupBounds(b, d, f, g);
    GroupArithmetic(b, d, f, g);
    assert r[0] == b1;
    assert forall i :: 1 <= i < |r| ==> r[i] == d1 || r[i] == h;
    r
  }

  /** The shifts, masks and ORs of one group as plain arithmetic.  A `d` of 64
      (a `=` in second place) sets bit 2 of the first value, which `b << 2`
      may already have set. */
  lemma GroupArithmetic(b: nat, d: nat, f: nat, g: nat)
    requires b < 65 && d < 65 && f < 65 && g < 65
    ensures Or(Shl(b, 2), Shr(d, 4)) == 4 * b + (if d < Pad then d / 16 else if b % 2 == 0 then 4 else 0)
    ensures f != Pad ==> Or(Shl(And(d, 15), 4), Shr(f, 2)) == 16 * (d % 16) + f / 4
    ensures g != Pad ==> Or(Shl(And(f, 3), 6), g) == 64 * (f % 4) + g
  {
    assert Pow2(2) == 4 && Pow2(4) == 16 && Pow2(6) == 64;
    if d < Pad {
      OrDisjoint(b, d / 16, 2);
    } else {
      assert Shr(d, 4) == 4;
      OrBitTwo(b);
    }
    AndLowMask(d, 4);
    if f != Pad {
      OrDisjoint(d % 16, f / 4, 4);
    }
    AndLowMask(f, 2);
    if g != Pad {
      OrDisjoint(f % 4, g, 6);
    }
  }

  /** `b << 2 | 4` sets bit 2, which is already set when `b` is odd. */
  lemma OrBitTwo(b: nat)
    ensures Or(4 * b, 4) == 4 * b + (if b % 2 == 0 then 4 else 0)
  {
    if b != 0 {
      assert Or(4 * b, 4) == 2 * Or(2 * b, 2);
      assert Or(2 * b, 2) == 2 * Or(b, 1);
      assert Or(b, 1) == 2 * Or(b / 2, 0) + 1;
    }
  }

  lemma GroupBounds(b: nat, d: nat, f: nat, g: nat)
    requires b < 65 && d < 65 && f < 65 && g < 65
    ensures b < Pad <==> Or(Shl(b, 2), Shr(d, 4)) < 256
    ensures f != Pad ==> Or(Shl(And(d, 15), 4), Shr(f, 2)) < 256
    ensures g != Pad ==> Or(Shl(And(f, 3), 6), g) < 256
  {
    assert Pow2(2) == 4 && Pow2(4) == 16 && Pow2(6) == 64 && Pow2(8) == 256;
    AndLowMask(d, 4);
    AndLowMask(f, 2);
    OrAtLeast(Shl(b, 2), Shr(d, 4));
    if b < Pad {
      OrBelow(Shl(b, 2), Shr(d, 4), 8);
    }
    OrBelow(Shl(And(d, 15), 4), Shr(f, 2), 8);
    OrBelow(Shl(And(f, 3), 6), g, 8);
  }

  /** `keyStr.index(T[i])`, failing like the source when `i` is past the end or
      the character is not in the table.  The position is read off the range
      description; `LookupIsKeyStrIndex` shows it is the one `keyStr.index`
      returns. */
  function Lookup(T: string, i: nat): (r: Result<nat, DecodeError>)
    ensures r.Success? <==> i < |T| && IsSymbol(T[i])
    ensures r.Success? ==> r.value < 65
  {
    if i >= |T| then Failure(IndexOutOfRange)
    else match SymbolValue(T[i])
      case None => Failure(NotInAlphabet(T[i]))
      case Some(v) => Success(v)
  }

  /** `Lookup` succeeds with the first position of `T[i]` in `keyStr`, and fails
      exactly when `T[i]` does not exist or is not in `keyStr`. */
  lemma LookupIsKeyStrIndex(T: string, i: nat)
    ensures Lookup(T, i).Success? ==> Some(Lookup(T, i).value) == IndexOf(KeyStr, T[i])
    ensures Lookup(T, i).Failure? <==> i >= |T| || T[i] !in KeyStr
  {
    KeyStrIsAlphabet();
    if i < |T| {
      IndexOfAlphabet(T[i]);
    }
  }

  /** One pass of the loop body over the group at the front of `T`: four
      lookups, then the values the group appends. */
  function DecodeGroup(T: string): (r: Result<seq<int>, DecodeError>)
    ensures r.Success? <==>
      |T| >= 4 && IsSymbol(T[0]) && IsSymbol(T[1]) && IsSymbol(T[2]) && IsSymbol(T[3])
    ensures r.Success? ==> 1 <= |r.value| <= 3
    ensures r.Success? ==>
      ((forall i :: 0 <= i < |r.value| ==> 0 <= r.value[i] < 256) <==> T[0] != '=')
    ensures r.Success? ==>
      r.value == GroupBytes(Lookup(T, 0).value, Lookup(T, 1).value, Lookup(T, 2).value, Lookup(T, 3).value)
  {
    var b :- Lookup(T, 0);
    var d :- Lookup(T, 1);
    var f :- Lookup(T, 2);
    var g :- Lookup(T, 3);
    Success(GroupBytes(b, d, f, g))
  }

  /** The `while e < len(T)` loop: the list of integers it appends, group by group. */
  function DecodeList(T: string): (r: Result<seq<int>, DecodeError>)
    decreases |T|
  {
    if |T| == 0 then Success([])
    else
      var G :- DecodeGroup(T);
      var rest :- DecodeList(T[4..]);
      Success(G + rest)
  }

  /** `bytes(result)`: every value must lie in `0..255`. */
  function ToBytes(xs: seq<int>): (r: Result<seq<byte>, DecodeError>)
    ensures r.Success? <==> forall i :: 0 <= i < |xs| ==> 0 <= xs[i] < 256
    ensures r.Success? ==> r.value == xs
  {
    if forall i :: 0 <= i < |xs| ==> 0 <= xs[i] < 256 then
      Success(seq(|xs|, i requires 0 <= i < |xs| => xs[i] as byte))
    else Failure(ByteOutOfRange)
  }

  /** `decode_base64_custom(T)` */
  function Decode(T: string): Result<seq<byte>, DecodeError> {
    var xs :- DecodeList(T);
    ToBytes(xs)
  }

  // ---------------------------------------------------------------------------
  // What the decoder accepts

  predicate AllInAlphabet(T: string) {
    forall i :: 0 <= i < |T| ==> IsSymbol(T[i])
  }

  /** No group of four starts with the padding symbol. */
  predicate NoGroupStartsWithPad(T: string) {
    forall k :: 0 <= k < |T| / 4 ==> T[4 * k] != '='
  }

  lemma ModSmall(n: nat)
    requires n < 4
    ensures n % 4 == n
  {
  }

  lemma AllInAlphabetSplit(T: string)
    requires |T| >= 4
    ensures AllInAlphabet(T) <==>
      IsSymbol(T[0]) && IsSymbol(T[1]) && IsSymbol(T[2]) && IsSymbol(T[3]) && AllInAlphabet(T[4..])
  {
    if IsSymbol(T[0]) && IsSymbol(T[1]) && IsSymbol(T[2]) && IsSymbol(T[3]) && AllInAlphabet(T[4..]) {
      forall i | 0 <= i < |T| ensures IsSymbol(T[i]) {
        if i >= 4 { assert T[i] == T[4..][i - 4]; }
      }
    }
  }

  lemma NoGroupStartsWithPadSplit(T: string)
    requires |T| >= 4
    ensures NoGroupStartsWithPad(T) <==> T[0] != '=' && NoGroupStartsWithPad(T[4..])
  {
    assert |T[4..]| / 4 == |T| / 4 - 1;
    forall k | 0 <= k < |T[4..]| / 4 ensures T[4..][4 * k] == T[4 * (k + 1)] {
    }
    if NoGroupStartsWithPad(T) {
      assert T[0] == T[4 * 0];
      forall k | 0 <= k < |T[4..]| / 4 ensures T[4..][4 * k] != '=' {
        assert T[4..][4 * k] == T[4 * (k + 1)];
      }
    }
    if T[0] != '=' && NoGroupStartsWithPad(T[4..]) {
      forall k | 0 <= k < |T| / 4 ensures T[4 * k] != '=' {
        if k > 0 { assert T[4 * k] == T[4..][4 * (k - 1)]; }
      }
    }
  }

  /** The loop completes exactly when the length is a multiple of four and every
      symbol is in the table; it then emits between one and three values per
      group. */
  lemma {:induction false} DecodeListAccepts(T: string)
    ensures DecodeList(T).Success? <==> |T| % 4 == 0 && AllInAlphabet(T)
    ensures DecodeList(T).Success? ==>
      |T| / 4 <= |DecodeList(T).value| <= 3 * (|T| / 4)
    decreases |T|
  {
    if |T| >= 4 {
      DecodeListAccepts(T[4..]);
      AllInAlphabetSplit(T);
      assert (|T| - 4) % 4 == 0 <==> |T| % 4 == 0;
      assert (|T| - 4) / 4 == |T| / 4 - 1;
    } else if |T| > 0 {
      assert DecodeGroup(T).Failure?;
      ModSmall(|T|);
    }
  }

  /** When the loop completes, every value it appended fits in a byte exactly
      when no group begins with `=`. */
  lemma {:induction false} DecodeListBytes(T: string)
    requires DecodeList(T).Success?
    ensures (forall i :: 0 <= i < |DecodeList(T).value| ==> 0 <= DecodeList(T).value[i] < 256)
            <==> NoGroupStartsWithPad(T)
    decreases |T|
  {
    if |T| > 0 {
      var G := DecodeGroup(T).value;
      var rest := DecodeList(T[4..]).value;
      DecodeListBytes(T[4..]);
      assert DecodeList(T).value == G + rest;
      NoGroupStartsWithPadSplit(T);
      var xs := G + rest;
      if NoGroupStartsWithPad(T) {
        forall i | 0 <= i < |xs| ensures 0 <= xs[i] < 256 {
          if i >= |G| { assert xs[i] == rest[i - |G|]; }
        }
      } else if T[0] != '=' {
        var j :| 0 <= j < |rest| && !(0 <= rest[j] < 256);
        assert xs[|G| + j] == rest[j];
      } else {
        var j :| 0 <= j < |G| && !(0 <= G[j] < 256);
        assert xs[j] == G[j];
      }
    } else {
      assert |T| / 4 == 0;
    }
  }

  /** The whole decoder succeeds exactly on inputs whose length is a multiple
      of four, whose symbols all come from the table and none of whose groups
      starts with `=`. */
  lemma DecodeAccepts(T: string)
    ensures Decode(T).Success? <==> |T| % 4 == 0 && AllInAlphabet(T) && NoGroupStartsWithPad(T)
  {
    DecodeListAccepts(T);
    if DecodeList(T).Success? {
      DecodeListBytes(T);
    }
  }

  // ---------------------------------------------------------------------------
  // Agreement with standard base64 on canonical input

  /** Standard encoding (section 4 of RFC 4648) of three bytes. */
  function EncodeTriple(x: byte, y: byte, z: byte): string {
    [SymbolAt(x / 4), SymbolAt((x % 4) * 16 + y / 16), SymbolAt((y % 16) * 4 + z / 64), SymbolAt(z % 64)]
  }

  /** Standard encoding of a final single byte: two symbols and two pads. */
  function EncodeSingle(x: byte): string {
    [SymbolAt(x / 4), SymbolAt((x % 4) * 16), '=', '=']
  }

  /** Standard encoding of two final bytes: three symbols and one pad. */
  function EncodePair(x: byte, y: byte): string {
    [SymbolAt(x / 4), SymbolAt((x % 4) * 16 + y / 16), SymbolAt((y % 16) * 4), '=']
  }

  /** Standard encoding with `=` padding: canonical input for the decoder. */
  function Encode(bs: seq<byte>): string
    decreases |bs|
  {
    if |bs| == 0 then ""
    else if |bs| == 1 then EncodeSingle(bs[0])
    else if |bs| == 2 then EncodePair(bs[0], bs[1])
    else EncodeTriple(bs[0], bs[1], bs[2]) + Encode(bs[3..])
  }

  /** The first byte of a group: the high six bits from the first symbol, the
      low two from the top of the second. */
  lemma UnpackFirst(x: byte, y: byte)
    ensures Or(Shl(x / 4, 2), Shr((x % 4) * 16 + y / 16, 4)) == x
  {
    assert Pow2(2) == 4 && Pow2(4) == 16;
    assert Shr((x % 4) * 16 + y / 16, 4) == x % 4;
    OrDisjoint(x / 4, x % 4, 2);
  }

  /** The second byte: the low four bits of the second symbol, then the top four
      of the third, whatever the third symbol's two low bits `w` hold. */
  lemma UnpackSecond(x: byte, y: byte, w: nat)
    requires w < 4
    ensures Or(Shl(And((x % 4) * 16 + y / 16, 15), 4), Shr((y % 16) * 4 + w, 2)) == y
  {
    var v, u := (x % 4) * 16 + y / 16, (y % 16) * 4 + w;
    assert Pow2(2) == 4 && Pow2(4) == 16;
    assert And(v, 15) == y / 16 by {
      AndLowMask(v, 4);
      ModOfSplit(v, 16, x % 4, y / 16);
    }
    assert Shr(u, 2) == y % 16 by {
      ModOfSplit(u, 4, y % 16, w);
    }
    assert Or(Shl(y / 16, 4), y % 16) == y by {
      OrDisjoint(y / 16, y % 16, 4);
      DivMod(y, 16);
    }
  }

  /** The third byte: the low two bits of the third symbol, then the fourth. */
  lemma UnpackThird(y: byte, z: byte)
    ensures Or(Shl(And((y % 16) * 4 + z / 64, 3), 6), z % 64) == z
  {
    assert Pow2(2) == 4 && Pow2(6) == 64;
    AndLowMask((y % 16) * 4 + z / 64, 2);
    assert And((y % 16) * 4 + z / 64, 3) == z / 64;
    OrDisjoint(z / 64, z % 64, 6);
  }

  /** The shifts, masks and ORs of one group undo the standard packing of
      three bytes into four six-bit symbols. */
  lemma UnpackTriple(x: byte, y: byte, z: byte)
    ensures GroupBytes(x / 4, (x % 4) * 16 + y / 16, (y % 16) * 4 + z / 64, z % 64) == [x, y, z]
  {
    UnpackFirst(x, y);
    UnpackSecond(x, y, z / 64);
    UnpackThird(y, z);
  }

  /** The group a full triple encodes to decodes to that triple. */
  lemma DecodeGroupTriple(T: string, x: byte, y: byte, z: byte)
    requires |T| >= 4 && T[..4] == EncodeTriple(x, y, z)
    ensures DecodeGroup(T) == Success([x, y, z])
  {
    var s1, s2, s3 := (x % 4) * 16 + y / 16, (y % 16) * 4 + z / 64, z % 64;
    assert Lookup(T, 0) == Success(x / 4) by {
      assert T[0] == T[..4][0] == SymbolAt(x / 4);
      SymbolValueOf(x / 4);
    }
    assert Lookup(T, 1) == Success(s1) by {
      assert T[1] == T[..4][1] == SymbolAt(s1);
      SymbolValueOf(s1);
    }
    assert Lookup(T, 2) == Success(s2) by {
      assert T[2] == T[..4][2] == SymbolAt(s2);
      SymbolValueOf(s2);
    }
    assert Lookup(T, 3) == Success(s3) by {
      assert T[3] == T[..4][3] == SymbolAt(s3);
      SymbolValueOf(s3);
    }
    UnpackTriple(x, y, z);
  }

  /** The group a lone final byte encodes to (`xx==`) decodes to that byte. */
  lemma DecodeGroupSingle(T: string, x: byte)
    requires T == EncodeSingle(x)
    ensures DecodeGroup(T) == Success([x])
  {
    var s1 := (x % 4) * 16;
    assert Lookup(T, 0) == Success(x / 4) by {
      SymbolValueOf(x / 4);
    }
    assert Lookup(T, 1) == Success(s1) by {
      SymbolValueOf(s1);
    }
    assert Lookup(T, 2) == Success(Pad) && Lookup(T, 3) == Success(Pad) by {
      assert T[2] == '=' && T[3] == '=';
    }
    assert GroupBytes(x / 4, s1, Pad, Pad) == [x] by {
      UnpackFirst(x, 0);
    }
  }

  /** The group two final bytes encode to (`xxx=`) decodes to those bytes. */
  lemma DecodeGroupPair(T: string, x: byte, y: byte)
    requires T == EncodePair(x, y)
    ensures DecodeGroup(T) == Success([x, y])
  {
    var s1, s2 := (x % 4) * 16 + y / 16, (y % 16) * 4;
    assert Lookup(T, 0) == Success(x / 4) by {
      assert T[0] == SymbolAt(x / 4);
      SymbolValueOf(x / 4);
    }
    assert Lookup(T, 1) == Success(s1) by {
      assert T[1] == SymbolAt(s1);
      SymbolValueOf(s1);
    }
    assert Lookup(T, 2) == Success(s2) by {
      assert T[2] == SymbolAt(s2);
      SymbolValueOf(s2);
    }
    assert Lookup(T, 3) == Success(Pad) by {
      assert T[3] == '=';
    }
    UnpackPair(x, y);
  }

  /** The padded group `xxx=` carries two bytes, which the group's shifts,
      masks and ORs recover. */
  lemma UnpackPair(x: byte, y: byte)
    ensures GroupBytes(x / 4, (x % 4) * 16 + y / 16, (y % 16) * 4, Pad) == [x, y]
  {
    UnpackFirst(x, y);
    UnpackSecond(x, y, 0);
  }

  lemma DecodeListCons(T: string, G: seq<int>, R: seq<int>)
    requires |T| > 0 && DecodeGroup(T) == Success(G) && DecodeList(T[4..]) == Success(R)
    ensures DecodeList(T) == Success(G + R)
  {
  }

  /** The padded tails: one byte (`xx==`) and two bytes (`xxx=`). */
  lemma DecodeListEncodeOne(x: byte)
    ensures DecodeList(Encode([x])) == Success([x])
  {
    var s := Encode([x]);
    assert s == EncodeSingle(x);
    DecodeGroupSingle(s, x);
    assert s[4..] == [];
    DecodeListCons(s, [x], []);
    assert [x] + [] == [x];
  }

  lemma DecodeListEncodeTwo(x: byte, y: byte)
    ensures DecodeList(Encode([x, y])) == Success([x, y])
  {
    var s := Encode([x, y]);
    assert s == EncodePair(x, y);
    DecodeGroupPair(s, x, y);
    assert s[4..] == [];
    DecodeListCons(s, [x, y], []);
    assert [x, y] + [] == [x, y];
  }

  /** Decoding a standard encoding gives the bytes back, including the one- and
      two-byte padded tails. */
  lemma {:induction false} DecodeListEncode(bs: seq<byte>)
    ensures DecodeList(Encode(bs)) == Success(bs)
    decreases |bs|
  {
    if |bs| == 1 {
      assert bs == [bs[0]];
      DecodeListEncodeOne(bs[0]);
    } else if |bs| == 2 {
      assert bs == [bs[0], bs[1]];
      DecodeListEncodeTwo(bs[0], bs[1]);
    } else if |bs| > 2 {
      DecodeListEncode(bs[3..]);
      DecodeListEncodeStep(bs);
    }
  }

  /** A full leading triple decodes on its own, and the rest decodes after it. */
  lemma DecodeListEncodeStep(bs: seq<byte>)
    requires |bs| > 2 && DecodeList(Encode(bs[3..])) == Success(bs[3..])
    ensures DecodeList(Encode(bs)) == Success(bs)
  {
    var s := Encode(bs);
    var tail := bs[3..];
    assert s[..4] == EncodeTriple(bs[0], bs[1], bs[2]);
    DecodeGroupTriple(s, bs[0], bs[1], bs[2]);
    assert s[4..] == Encode(tail);
    DecodeListCons(s, [bs[0], bs[1], bs[2]], tail);
    FirstThree(bs);
  }

  lemma FirstThree<T>(s: seq<T>)
    requires |s| >= 3
    ensures s == [s[0], s[1], s[2]] + s[3..]
  {
  }

  /** Canonical input decodes, through `bytes(...)`, to the bytes it encodes. */
  lemma DecodeEncode(bs: seq<byte>)
    ensures Decode(Encode(bs)) == Success(bs)
  {
    DecodeListEncode(bs);
    assert ToBytes(bs) == Success(bs);
  }

  /** An example: `SGVsbG8=` decodes to the bytes of `Hello`. */
  lemma DecodeHello()
    ensures Decode("SGVsbG8=") == Success([72, 101, 108, 108, 111])
  {
    assert Encode([72, 101, 108, 108, 111]) == "SGVsbG8=";
    DecodeEncode([72, 101, 108, 108, 111]);
  }
}
