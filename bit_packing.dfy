/** Packing a `'0'`/`'1'` string into bytes with `std::bitset<8>` (inside
    `Huffman::encode`) and expanding bytes back into such a string with
    `std::bitset<8>::to_string` (inside `Huffman::decode`). */
module BitPacking {
  import opened Bytes

  ghost predicate IsBinary(s: Code)
  {
    forall i :: 0 <= i < |s| ==> s[i] == '0' || s[i] == '1'
  }

  function Pow2(n: nat): (r: nat)
    ensures r >= 1
  {
    if n == 0 then 1 else 2 * Pow2(n - 1)
  }

  lemma {:induction false} Pow2Monotone(m: nat, n: nat)
    requires m <= n
    ensures Pow2(m) <= Pow2(n)
  {
    if m < n {
      Pow2Monotone(m, n - 1);
    }
  }

  /** The digit a character stands for. `std::bitset` throws on a character
      other than `'0'` or `'1'`; the functions here count it as 0 and the
      operations that model the construction require binary input. */
  function Digit(c: char8): nat
  {
    if c == '1' then 1 else 0
  }

  /** `std::bitset<N>(s).to_ulong()` for a string `s` of at most N digits:
      `s` read as a binary number, its first character the most significant
      digit. */
  function BitsValue(s: Code): (v: nat)
    ensures v < Pow2(|s|)
  {
    if s == [] then 0 else 2 * BitsValue(s[..|s| - 1]) + Digit(s[|s| - 1])
  }

  /** One packed byte: the group's value, which fits since the group has at
      most 8 digits. */
  function GroupByte(g: Code): byte
    requires |g| <= 8
  {
    Pow2Monotone(|g|, 8);
    BitsValue(g)
  }

  /** The loop `for (i = 0; i < n; i += 8) push(bitset<8>(s.substr(i, 8)))`:
      every group of 8 characters, and a last group of whatever remains. */
  function PackBits(s: Code): (r: seq<byte>)
    ensures |r| == (|s| + 7) / 8
    decreases |s|
  {
    if s == [] then []
    else if |s| < 8 then [GroupByte(s)]
    else [GroupByte(s[..8])] + PackBits(s[8..])
  }

  /** `v mod 2^n` as `n` binary digits, most significant first. */
  function ToBits(v: nat, n: nat): (s: Code)
    ensures |s| == n
  {
    if n == 0 then [] else ToBits(v / 2, n - 1) + [if v % 2 == 1 then '1' else '0']
  }

  /** `std::bitset<8>(b).to_string()`. */
  function UnpackByte(b: byte): Code
  {
    ToBits(b, 8)
  }

  function UnpackBytes(bs: seq<byte>): (s: Code)
    ensures |s| == 8 * |bs|
  {
    if bs == [] then [] else UnpackByte(bs[0]) + UnpackBytes(bs[1..])
  }

  /** `to_string` writes only `'0'` and `'1'`. */
  lemma {:induction false} ToBitsBinary(v: nat, n: nat)
    ensures IsBinary(ToBits(v, n))
  {
    if n > 0 {
      ToBitsBinary(v / 2, n - 1);
    }
  }

  lemma {:induction false} UnpackBinary(bs: seq<byte>)
    ensures IsBinary(UnpackBytes(bs))
  {
    if bs != [] {
      ToBitsBinary(bs[0], 8);
      UnpackBinary(bs[1..]);
    }
  }

  function Zeros(n: nat): (s: Code)
    ensures |s| == n
  {
    if n == 0 then [] else Zeros(n - 1) + ['0']
  }

  /** The characters from index `i` on; none once `i` has passed the end. */
  function From(s: Code, i: nat): (r: Code)
  {
    if i < |s| then s[i..] else []
  }

  /** Packing from index `i` is the group at `i` followed by packing from
      `i + 8`. */
  lemma PackStep(s: Code, i: nat)
    requires i < |s|
    ensures var end := if i + 8 < |s| then i + 8 else |s|;
      PackBits(From(s, i)) == [GroupByte(s[i..end])] + PackBits(From(s, i + 8))
  {
    var end := if i + 8 < |s| then i + 8 else |s|;
    if i + 8 <= |s| {
      assert s[i..][..8] == s[i..end] && s[i..][8..] == From(s, i + 8);
    } else {
      assert s[i..] == s[i..end];
    }
  }

  method Pack(bits: Code) returns (bytes: seq<byte>)
    requires IsBinary(bits)
    ensures bytes == PackBits(bits)
  {
    bytes := [];
    var i := 0;
    while i < |bits|
      invariant bytes + PackBits(From(bits, i)) == PackBits(bits)
      decreases |bits| - i
    {
      var end := if i + 8 < |bits| then i + 8 else |bits|;
      var group := bits[i .. end];
      PackStep(bits, i);
      AppendAssoc(bytes, [GroupByte(group)], PackBits(From(bits, i + 8)));
      bytes := bytes + [GroupByte(group)];
      i := i + 8;
    }
  }

  method Unpack(encoded: seq<byte>, index: nat) returns (bits: Code)
    requires index <= |encoded|
    ensures bits == UnpackBytes(encoded[index..])
  {
    bits := [];
    for i := index to |encoded|
      invariant bits + UnpackBytes(encoded[i..]) == UnpackBytes(encoded[index..])
    {
      UnpackStep(bits, encoded, index, i);
      bits := bits + UnpackByte(encoded[i]);
    }
    UnpackEnd(bits, encoded);
  }

  /** One turn of the expansion loop keeps its invariant. */
  lemma UnpackStep(bits: Code, encoded: seq<byte>, index: nat, i: nat)
    requires index <= i < |encoded|
    requires bits + UnpackBytes(encoded[i..]) == UnpackBytes(encoded[index..])
    ensures (bits + UnpackByte(encoded[i])) + UnpackBytes(encoded[i + 1..]) == UnpackBytes(encoded[index..])
  {
    assert encoded[i..][1..] == encoded[i + 1..];
    AppendAssoc(bits, UnpackByte(encoded[i]), UnpackBytes(encoded[i + 1..]));
  }

  lemma UnpackEnd(bits: Code, encoded: seq<byte>)
    ensures bits + UnpackBytes(encoded[|encoded|..]) == bits
  {
    assert encoded[|encoded|..] == [];
  }

  /** Byte `i` of the packed string is the value of characters `8 * i` up to
      `8 * i + 8`, or up to the end for the final short group. */
  lemma {:induction false} PackBitsGroup(s: Code, i: nat)
    requires i < (|s| + 7) / 8
    ensures var end := if 8 * i + 8 <= |s| then 8 * i + 8 else |s|;
      PackBits(s)[i] == GroupByte(s[8 * i .. end])
    decreases i
  {
    if i == 0 {
      PackBitsFirst(s);
    } else {
      var end := if 8 * i + 8 <= |s| then 8 * i + 8 else |s|;
      PackBitsGroup(s[8..], i - 1);
      PackBitsLater(s, i);
      SliceAfter(s, 8, 8 * i, end);
    }
  }

  lemma PackBitsFirst(s: Code)
    requires s != []
    ensures PackBits(s)[0] == GroupByte(s[0 .. if 8 <= |s| then 8 else |s|])
  {
    if |s| >= 8 {
      assert s[0..8] == s[..8];
    } else {
      assert s[0..|s|] == s;
    }
  }

  /** Group `i > 0` of `s` is group `i - 1` of `s[8..]`. */
  lemma PackBitsLater(s: Code, i: nat)
    requires 1 <= i < (|s| + 7) / 8
    ensures PackBits(s)[i] == PackBits(s[8..])[i - 1]
  {
    assert PackBits(s) == [GroupByte(s[..8])] + PackBits(s[8..]);
  }

  lemma SliceAfter(s: Code, d: nat, a: nat, b: nat)
    requires d <= a <= b <= |s|
    ensures s[d..][a - d .. b - d] == s[a..b]
  {
  }

  /** A group's first character is its most significant bit. */
  lemma {:induction false} FirstCharIsMostSignificant(g: Code)
    requires |g| >= 1
    ensures BitsValue(g) == Digit(g[0]) * Pow2(|g| - 1) + BitsValue(g[1..])
    decreases |g|
  {
    if |g| > 1 {
      var h := g[..|g| - 1];
      FirstCharIsMostSignificant(h);
      assert h[1..] == g[1..][..|g[1..]| - 1];
      assert h[0] == g[0];
    }
  }

  /** The value 0 expands to `n` zeros. */
  lemma {:induction false} ZerosValue(n: nat)
    ensures ToBits(0, n) == Zeros(n)
  {
    if n > 0 {
      ZerosValue(n - 1);
    }
  }

  /** Expanding the byte of a group of `r <= n` digits gives `n - r` zeros
      followed by the group: a short group sits in the low-order bits. */
  lemma {:induction false} ToBitsOfValue(g: Code, n: nat)
    requires IsBinary(g) && |g| <= n
    ensures ToBits(BitsValue(g), n) == Zeros(n - |g|) + g
    decreases |g|
  {
    if g == [] {
      assert BitsValue(g) == 0;
      ZerosValue(n);
    } else {
      var h := g[..|g| - 1];
      var last := g[|g| - 1];
      HalveValue(g);
      ToBitsOfValue(h, n - 1);
      assert ToBits(BitsValue(g), n) == ToBits(BitsValue(h), n - 1) + [last];
      AppendLast(Zeros(n - |g|), g);
    }
  }

  /** Dropping the last digit halves the value; the last digit is the
      remainder. */
  lemma HalveValue(g: Code)
    requires g != []
    ensures BitsValue(g) / 2 == BitsValue(g[..|g| - 1])
    ensures BitsValue(g) % 2 == 1 <==> g[|g| - 1] == '1'
  {
    var b := BitsValue(g[..|g| - 1]);
    var d := Digit(g[|g| - 1]);
    assert BitsValue(g) == 2 * b + d;
  }

  lemma AppendLast(z: Code, g: Code)
    requires g != []
    ensures z + g == (z + g[..|g| - 1]) + [g[|g| - 1]]
  {
    assert g == g[..|g| - 1] + [g[|g| - 1]];
  }

  /** A packed group unpacks to itself behind `8 - |g|` zeros; a full group of
      8 comes back unchanged, most significant bit first. */
  lemma GroupUnpacks(g: Code)
    requires IsBinary(g) && |g| <= 8
    ensures UnpackByte(GroupByte(g)) == Zeros(8 - |g|) + g
  {
    ToBitsOfValue(g, 8);
  }

  lemma UnpackCons(b: byte, bs: seq<byte>)
    ensures UnpackBytes([b] + bs) == UnpackByte(b) + UnpackBytes(bs)
  {
    assert ([b] + bs)[1..] == bs;
  }

  /** What unpacking a packed string gives: every full group unchanged, a
      short final group behind the zeros that fill its byte. */
  function Padded(s: Code): (r: Code)
    decreases |s|
  {
    if s == [] then []
    else if |s| < 8 then Zeros(8 - |s|) + s
    else s[..8] + Padded(s[8..])
  }

  lemma {:induction false} UnpackPackPadded(s: Code)
    requires IsBinary(s)
    ensures UnpackBytes(PackBits(s)) == Padded(s)
    decreases |s|
  {
    if s == [] {
    } else if |s| < 8 {
      GroupUnpacks(s);
      assert UnpackBytes(PackBits(s)) == UnpackByte(GroupByte(s)) + UnpackBytes([]);
    } else {
      var head, rest := s[..8], s[8..];
      assert IsBinary(head) && IsBinary(rest);
      UnpackPackPadded(rest);
      GroupUnpacks(head);
      assert Zeros(8 - |head|) + head == head;
      assert PackBits(s) == [GroupByte(head)] + PackBits(rest);
      UnpackCons(GroupByte(head), PackBits(rest));
    }
  }

  lemma {:induction false} PaddedWhole(s: Code)
    requires |s| % 8 == 0
    ensures Padded(s) == s
    decreases |s|
  {
    if s != [] {
      PaddedWhole(s[8..]);
      assert s == s[..8] + s[8..];
    }
  }

  lemma {:induction false} PaddedSplit(full: Code, tail: Code)
    requires |full| % 8 == 0 && 0 < |tail| < 8
    ensures Padded(full + tail) == full + Zeros(8 - |tail|) + tail
    decreases |full|
  {
    if full != [] {
      var s := full + tail;
      PaddedSplit(full[8..], tail);
      assert s[..8] == full[..8] && s[8..] == full[8..] + tail;
      assert full == full[..8] + full[8..];
    }
  }

  /** Unpacking what was packed returns the string when its length is a
      multiple of 8. */
  lemma UnpackPackWhole(s: Code)
    requires IsBinary(s) && |s| % 8 == 0
    ensures UnpackBytes(PackBits(s)) == s
  {
    UnpackPackPadded(s);
    PaddedWhole(s);
  }

  /** Otherwise the final short group comes back with its padding zeros in
      front of it, not behind it. */
  lemma UnpackPackPartial(full: Code, tail: Code)
    requires IsBinary(full + tail) && |full| % 8 == 0 && 0 < |tail| < 8
    ensures UnpackBytes(PackBits(full + tail)) == full + Zeros(8 - |tail|) + tail
  {
    UnpackPackPadded(full + tail);
    PaddedSplit(full, tail);
  }

  /** Reading back `n` digits of a value below `2^n` gives the value. */
  lemma {:induction false} BitsValueOfToBits(v: nat, n: nat)
    requires v < Pow2(n)
    ensures BitsValue(ToBits(v, n)) == v
  {
    if n > 0 {
      var s := ToBits(v, n);
      var front := ToBits(v / 2, n - 1);
      assert s == front + [if v % 2 == 1 then '1' else '0'];
      assert s[..n - 1] == front;
      BitsValueOfToBits(v / 2, n - 1);
      assert BitsValue(s) == 2 * BitsValue(front) + v % 2;
    }
  }

  /** Packing what was unpacked returns the bytes. */
  lemma {:induction false} PackUnpack(bs: seq<byte>)
    ensures PackBits(UnpackBytes(bs)) == bs
  {
    if bs != [] {
      var s := UnpackBytes(bs);
      var head := UnpackByte(bs[0]);
      PackUnpack(bs[1..]);
      BitsValueOfToBits(bs[0], 8);
      assert Pow2(8) == 256;
      assert GroupByte(head) == bs[0];
      assert s == head + UnpackBytes(bs[1..]);
      assert s[..8] == head && s[8..] == UnpackBytes(bs[1..]);
    }
  }
}
