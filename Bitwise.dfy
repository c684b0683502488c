/** Bit-level accessors over one byte and over a byte array read as a single bit
    vector whose LAST element holds the lowest-order eight bits. A byte is a `bv8`;
    bit 0 is its least significant bit. The static utility class of the original
    becomes this module; the in-place array operations are methods on `array<bv8>`,
    everything else is a function. */
module Bitwise {
  import opened Arithmetic

  /** The mask table: entry k has only bit k set. */
  const BitMasks: seq<bv8> := [1, 2, 4, 8, 16, 32, 64, 128]

  // ---------------------------------------------------------------------------
  // Single-byte operations
  // ---------------------------------------------------------------------------

  /** Bit i of b is 1. */
  predicate IsSet(i: nat, b: bv8)
    requires i < 8
  {
    BitMasks[i] & b != 0
  }

  /** An independent reading of "bit k": shift it down to position 0. */
  predicate ShiftedBit(b: bv8, k: nat)
    requires k < 8
  {
    (b >> k) & 1 == 1
  }

  /** Mask table entry i is the byte with only bit i set. */
  lemma MaskIsShift(i: nat)
    requires i < 8
    ensures BitMasks[i] == 1 << i
  {
  }

  /** The mask table agrees with the shift reading of a bit. */
  lemma IsSetIsShiftedBit(i: nat, b: bv8)
    requires i < 8
    ensures IsSet(i, b) == ShiftedBit(b, i)
  {
    MaskIsShift(i);
  }

  /** Two bytes with the same eight bits are the same byte. */
  lemma BitsDetermineByte(a: bv8, b: bv8)
    requires forall j :: 0 <= j < 8 ==> IsSet(j, a) == IsSet(j, b)
    ensures a == b
  {
    assert IsSet(0, a) == IsSet(0, b) && IsSet(1, a) == IsSet(1, b);
    assert IsSet(2, a) == IsSet(2, b) && IsSet(3, a) == IsSet(3, b);
    assert IsSet(4, a) == IsSet(4, b) && IsSet(5, a) == IsSet(5, b);
    assert IsSet(6, a) == IsSet(6, b) && IsSet(7, a) == IsSet(7, b);
  }

  lemma SetBitAt(i: nat, j: nat, b: bv8)
    requires i < 8 && j < 8
    ensures IsSet(j, BitMasks[i] | b) == (j == i || IsSet(j, b))
  {
    MaskIsShift(i);
    MaskIsShift(j);
  }

  lemma ClearBitAt(i: nat, j: nat, b: bv8)
    requires i < 8 && j < 8
    ensures IsSet(j, !BitMasks[i] & b) == (j != i && IsSet(j, b))
  {
    MaskIsShift(i);
    MaskIsShift(j);
  }

  /** The byte b with bit i forced to 1. */
  function Set(i: nat, b: bv8): (r: bv8)
    requires i < 8
    ensures IsSet(i, r)
    ensures forall j :: 0 <= j < 8 && j != i ==> IsSet(j, r) == IsSet(j, b)
  {
    forall j | 0 <= j < 8 {
      SetBitAt(i, j, b);
    }
    BitMasks[i] | b
  }

  /** The byte b with bit i forced to 0; it differs from b exactly when bit i was 1. */
  function Clear(i: nat, b: bv8): (r: bv8)
    requires i < 8
    ensures !IsSet(i, r)
    ensures forall j :: 0 <= j < 8 && j != i ==> IsSet(j, r) == IsSet(j, b)
    ensures r != b <==> IsSet(i, b)
  {
    MaskIsShift(i);
    forall j | 0 <= j < 8 {
      ClearBitAt(i, j, b);
    }
    !BitMasks[i] & b
  }

  /** Set and Clear are pinned down by their contracts: any byte that has bit i
      as requested and every other bit of b is the result. */
  lemma SetClearUnique(i: nat, b: bv8, c: bv8)
    requires i < 8
    requires forall j :: 0 <= j < 8 && j != i ==> IsSet(j, c) == IsSet(j, b)
    ensures IsSet(i, c) ==> c == Set(i, b)
    ensures !IsSet(i, c) ==> c == Clear(i, b)
  {
    if IsSet(i, c) {
      BitsDetermineByte(c, Set(i, b));
    } else {
      BitsDetermineByte(c, Clear(i, b));
    }
  }

  /** Setting a bit after clearing it gives back b with bit i set. */
  lemma SetAfterClear(i: nat, b: bv8)
    requires i < 8
    ensures Set(i, Clear(i, b)) == Set(i, b)
    ensures Clear(i, Set(i, b)) == Clear(i, b)
  {
    MaskIsShift(i);
  }

  /** The numeric value of a byte, bit k weighing 2^k. */
  lemma {:induction false} IsSetIsBinaryDigit(k: nat, b: bv8)
    requires k < 8
    ensures IsSet(k, b) <==> (b as int / Pow2(k)) % 2 == 1
  {
    if k == 0 {
      assert IsSet(0, b) <==> b & 1 != 0;
    } else {
      var h := b >> 1;
      ByteHalves(b);
      ShiftDownBit(k, b);
      IsSetIsBinaryDigit(k - 1, h);
      DigitStep(b as int, h as int, (b & 1) as int, k);
    }
  }

  lemma DigitStep(x: int, h: int, r: int, k: nat)
    requires k > 0 && 0 <= r < 2 && x == h * 2 + r
    ensures x / Pow2(k) == h / Pow2(k - 1)
  {
    HalfStep(h, r, Pow2(k - 1));
  }

  lemma ByteHalves(b: bv8)
    ensures b as int == (b >> 1) as int * 2 + (b & 1) as int
    ensures 0 <= (b & 1) as int < 2
  {
  }

  lemma ShiftDownBit(k: nat, b: bv8)
    requires 0 < k < 8
    ensures IsSet(k, b) == IsSet(k - 1, b >> 1)
  {
    MaskIsShift(k);
    MaskIsShift(k - 1);
  }

  // ---------------------------------------------------------------------------
  // Byte-array operations: the array is one bit vector, last element lowest
  // ---------------------------------------------------------------------------

  /** Global bit i of bytes lives in element |bytes|-1-i/8, at bit i%8. */
  predicate IsSetIn(i: nat, bytes: seq<bv8>)
    requires i < 8 * |bytes|
  {
    IsSet(i % 8, bytes[|bytes| - 1 - i / 8])
  }

  /** The unsigned number the array spells, element 0 most significant. */
  function Value(bytes: seq<bv8>): (v: nat)
  {
    if |bytes| == 0 then 0 else Value(bytes[..|bytes| - 1]) * 256 + bytes[|bytes| - 1] as int
  }

  /** The index mapping is the big-endian one: global bit i is binary digit i of
      the number the array spells. */
  lemma {:induction false} IsSetInIsBinaryDigit(i: nat, bytes: seq<bv8>)
    requires i < 8 * |bytes|
    ensures IsSetIn(i, bytes) <==> (Value(bytes) / Pow2(i)) % 2 == 1
  {
    var n := |bytes|;
    var front, last := bytes[..n - 1], bytes[n - 1];
    assert bytes == front + [last];
    if i < 8 {
      IsSetIsBinaryDigit(i, last);
      LowDigit(Value(front), last as int, i);
    } else {
      IsSetInIsBinaryDigit(i - 8, front);
      assert IsSetIn(i, bytes) == IsSetIn(i - 8, front);
      HighDigit(Value(front), last as int, i);
    }
  }

  /** Binary digit i < 8 of v*256 + c is binary digit i of the low byte c. */
  lemma LowDigit(v: int, c: int, i: nat)
    requires i < 8
    ensures ((v * 256 + c) / Pow2(i)) % 2 == (c / Pow2(i)) % 2
  {
    Pow2Add(i, 8 - i);
    Pow2Values();
    var p, q, h := Pow2(i), Pow2(8 - i), Pow2(7 - i);
    assert p * q == 256;
    assert q == 2 * h;
    var m := v * h;
    var t := 2 * m;
    assert t * p == v * 256 by {
      MulAssoc(v, q, p);
    }
    DivAddMultiple(t, c, p);
    DivModUnique(t + c / p, 2, m + (c / p) / 2, (c / p) % 2);
  }

  /** Binary digit i >= 8 of v*256 + c, 0 <= c < 256, is binary digit i-8 of v. */
  lemma HighDigit(v: int, c: int, i: nat)
    requires i >= 8 && 0 <= c < 256
    ensures (v * 256 + c) / Pow2(i) == v / Pow2(i - 8)
  {
    Pow2Add(8, i - 8);
    Pow2Values();
    DivDiv(v * 256 + c, 256, Pow2(i - 8));
    DivAddMultiple(v, c, 256);
  }

  /** Distinct arrays of equal length differ in some global bit. */
  lemma BitsDetermineBytes(s: seq<bv8>, t: seq<bv8>)
    requires |s| == |t|
    requires forall i :: 0 <= i < 8 * |s| ==> IsSetIn(i, s) == IsSetIn(i, t)
    ensures s == t
  {
    var n := |s|;
    forall k | 0 <= k < n
      ensures s[k] == t[k]
    {
      forall j | 0 <= j < 8
        ensures IsSet(j, s[k]) == IsSet(j, t[k])
      {
        var i := 8 * (n - 1 - k) + j;
        assert i / 8 == n - 1 - k && i % 8 == j;
        assert IsSetIn(i, s) == IsSetIn(i, t);
      }
      BitsDetermineByte(s[k], t[k]);
    }
  }

  /** The array after global bit i is set. */
  function WithSet(bytes: seq<bv8>, i: nat): (r: seq<bv8>)
    requires i < 8 * |bytes|
    ensures |r| == |bytes|
    ensures IsSetIn(i, r)
    ensures forall j :: 0 <= j < 8 * |bytes| && j != i ==> IsSetIn(j, r) == IsSetIn(j, bytes)
    ensures forall k :: 0 <= k < |bytes| && k != |bytes| - 1 - i / 8 ==> r[k] == bytes[k]
  {
    var k := |bytes| - 1 - i / 8;
    var r := bytes[k := Set(i % 8, bytes[k])];
    assert forall j :: 0 <= j < 8 * |bytes| && j != i ==> IsSetIn(j, r) == IsSetIn(j, bytes) by {
      forall j | 0 <= j < 8 * |bytes| && j != i
        ensures IsSetIn(j, r) == IsSetIn(j, bytes)
      {
        if j / 8 == i / 8 { assert j % 8 != i % 8; }
      }
    }
    r
  }

  /** The array after global bit i is cleared. */
  function WithCleared(bytes: seq<bv8>, i: nat): (r: seq<bv8>)
    requires i < 8 * |bytes|
    ensures |r| == |bytes|
    ensures !IsSetIn(i, r)
    ensures forall j :: 0 <= j < 8 * |bytes| && j != i ==> IsSetIn(j, r) == IsSetIn(j, bytes)
    ensures forall k :: 0 <= k < |bytes| && k != |bytes| - 1 - i / 8 ==> r[k] == bytes[k]
    ensures r == bytes <==> !IsSetIn(i, bytes)
  {
    var k := |bytes| - 1 - i / 8;
    var r := bytes[k := Clear(i % 8, bytes[k])];
    assert forall j :: 0 <= j < 8 * |bytes| && j != i ==> IsSetIn(j, r) == IsSetIn(j, bytes) by {
      forall j | 0 <= j < 8 * |bytes| && j != i
        ensures IsSetIn(j, r) == IsSetIn(j, bytes)
      {
        if j / 8 == i / 8 { assert j % 8 != i % 8; }
      }
    }
    assert r == bytes ==> r[k] == bytes[k];
    r
  }

  /** Clearing twice is clearing once, and the second clear finds the bit at 0. */
  lemma ClearInIdempotent(bytes: seq<bv8>, i: nat)
    requires i < 8 * |bytes|
    ensures WithCleared(WithCleared(bytes, i), i) == WithCleared(bytes, i)
    ensures !IsSetIn(i, WithCleared(bytes, i))
  {
  }

  /** WithSet and WithCleared are the only arrays with their bit pattern. */
  lemma WithSetClearedUnique(bytes: seq<bv8>, i: nat, c: seq<bv8>)
    requires i < 8 * |bytes| && |c| == |bytes|
    requires forall j :: 0 <= j < 8 * |bytes| && j != i ==> IsSetIn(j, c) == IsSetIn(j, bytes)
    ensures IsSetIn(i, c) ==> c == WithSet(bytes, i)
    ensures !IsSetIn(i, c) ==> c == WithCleared(bytes, i)
  {
    if IsSetIn(i, c) {
      BitsDetermineBytes(c, WithSet(bytes, i));
    } else {
      BitsDetermineBytes(c, WithCleared(bytes, i));
    }
  }

  /** Set global bit i of the caller's array in place. */
  method SetIn(i: nat, bytes: array<bv8>)
    requires i < 8 * bytes.Length
    modifies bytes
    ensures bytes[..] == WithSet(old(bytes[..]), i)
  {
    var maxArrayIndex := bytes.Length - 1;
    var arrayIndex := maxArrayIndex - i / 8;
    var bitIndex := i % 8;
    bytes[arrayIndex] := Set(bitIndex, bytes[arrayIndex]);
  }

  /** Clear global bit i of the caller's array in place; report whether the
      addressed element changed, that is, whether the bit was 1. */
  method ClearIn(i: nat, bytes: array<bv8>) returns (wasSet: bool)
    requires i < 8 * bytes.Length
    modifies bytes
    ensures bytes[..] == WithCleared(old(bytes[..]), i)
    ensures wasSet == old(IsSetIn(i, bytes[..]))
  {
    var maxArrayIndex := bytes.Length - 1;
    var arrayIndex := maxArrayIndex - i / 8;
    var bitIndex := i % 8;
    var tmp := bytes[arrayIndex];
    bytes[arrayIndex] := Clear(bitIndex, bytes[arrayIndex]);
    wasSet := tmp != bytes[arrayIndex];
  }

  /** An array of n zero bytes. */
  function Zeros(n: nat): (z: seq<bv8>)
    ensures |z| == n
    ensures forall i :: 0 <= i < 8 * n ==> !IsSetIn(i, z)
  {
    seq(n, _ => 0)
  }

  lemma {:induction false} ZerosValue(n: nat)
    ensures Value(Zeros(n)) == 0
  {
    if n > 0 {
      assert Zeros(n)[..n - 1] == Zeros(n - 1);
      ZerosValue(n - 1);
    }
  }

  /** Zero every element of the caller's array in place. */
  method ClearAll(bytes: array<bv8>)
    modifies bytes
    ensures bytes[..] == Zeros(bytes.Length)
    ensures forall i :: 0 <= i < 8 * bytes.Length ==> !IsSetIn(i, bytes[..])
  {
    for i := 0 to bytes.Length
      invariant forall k :: 0 <= k < i ==> bytes[k] == 0
    {
      bytes[i] := 0;
    }
  }

  // ---------------------------------------------------------------------------
  // Rendering as '0'/'1' text, most significant bit first
  // ---------------------------------------------------------------------------

  /** The character the renderers write for one bit. */
  function Digit(bit: bool): char
  {
    if bit then '1' else '0'
  }

  /** The eight-character text of one byte, bit 7 first. */
  function ByteText(b: bv8): (t: string)
  {
    seq(8, j requires 0 <= j < 8 => Digit(IsSet(7 - j, b)))
  }

  /** Render one byte: bit 7 down to bit 0. */
  method ByteToString(b: bv8) returns (s: string)
    ensures |s| == 8
    ensures forall k :: 0 <= k < 8 ==> s[k] == Digit(IsSet(7 - k, b))
    ensures s == ByteText(b)
  {
    s := "";
    var i := 7;
    while i >= 0
      invariant -1 <= i <= 7
      invariant |s| == 7 - i
      invariant forall k :: 0 <= k < 7 - i ==> s[k] == Digit(IsSet(7 - k, b))
    {
      if IsSet(i, b) {
        s := s + "1";
      } else {
        s := s + "0";
      }
      i := i - 1;
    }
  }

  /** What the array renderer writes after the element at index j of an n-element
      array: nothing after the last element, the group separator when the elements
      still to come are a multiple of `every` (and `every` is positive), otherwise
      the byte separator. */
  function SeparatorAfter(n: nat, j: nat, sep: string, lsep: string, every: int): string
    requires j < n
  {
    if j == n - 1 then ""
    else if every > 0 && (n - 1 - j) % every == 0 then lsep
    else sep
  }

  /** The texts of the first j elements, each followed by its separator. */
  function RenderPrefix(bytes: seq<bv8>, j: nat, sep: string, lsep: string, every: int): string
    requires j <= |bytes|
  {
    if j == 0 then ""
    else RenderPrefix(bytes, j - 1, sep, lsep, every) + ByteText(bytes[j - 1])
           + SeparatorAfter(|bytes|, j - 1, sep, lsep, every)
  }

  /** The rendering of a whole array, element by element. */
  function Render(bytes: seq<bv8>, sep: string, lsep: string, every: int): string
  {
    RenderPrefix(bytes, |bytes|, sep, lsep, every)
  }

  /** Text the renderer has written once it has finished elements 0..j-1 and the
      r highest bits of element j. */
  function RenderedBits(bytes: seq<bv8>, j: nat, r: nat, sep: string, lsep: string, every: int): string
    requires (j < |bytes| && r < 8) || (j == |bytes| && r == 0)
  {
    RenderPrefix(bytes, j, sep, lsep, every) + (if j < |bytes| then ByteText(bytes[j])[..r] else "")
  }

  /** Global bit 8*(n-1-j) + 7-r is bit 7-r of element j. */
  lemma BitPosition(bytes: seq<bv8>, j: nat, r: nat)
    requires j < |bytes| && r < 8
    ensures IsSetIn(8 * (|bytes| - 1 - j) + 7 - r, bytes) == IsSet(7 - r, bytes[j])
  {
    var i := 8 * (|bytes| - 1 - j) + 7 - r;
    DivModUnique(i, 8, |bytes| - 1 - j, 7 - r);
  }

  /** The text the bit loop appends after global bit i is the separator that
      follows i's element when i is that element's lowest bit, and nothing
      otherwise. */
  lemma SeparatorAtBit(n: nat, j: nat, r: nat, i: int, sep: string, lsep: string, every: int)
    requires j < n && r < 8 && i == 8 * (n - 1 - j) + 7 - r
    ensures (if i > 0 then
               (if every > 0 && i % (8 * every) == 0 then lsep
                else if i % 8 == 0 then sep else "")
             else "")
         == (if r == 7 then SeparatorAfter(n, j, sep, lsep, every) else "")
  {
    var m := n - 1 - j;
    DivModUnique(i, 8, m, 7 - r);
    if every > 0 {
      if i % (8 * every) == 0 {
        ModOfMultipleOf8(i, every);
      }
      if r == 7 {
        ModMultiple(m, every);
      }
    }
  }

  /** One step of the bit loop: bit 7-r of element j is written, then, if it was
      the element's lowest bit, its separator. */
  lemma RenderedBitsStep(bytes: seq<bv8>, j: nat, r: nat, sep: string, lsep: string, every: int)
    requires j < |bytes| && r < 8
    ensures r < 7 ==>
      RenderedBits(bytes, j, r + 1, sep, lsep, every)
      == RenderedBits(bytes, j, r, sep, lsep, every) + [Digit(IsSet(7 - r, bytes[j]))]
    ensures r == 7 ==>
      RenderedBits(bytes, j + 1, 0, sep, lsep, every)
      == RenderedBits(bytes, j, r, sep, lsep, every) + [Digit(IsSet(7 - r, bytes[j]))]
         + SeparatorAfter(|bytes|, j, sep, lsep, every)
  {
    var t := ByteText(bytes[j]);
    assert t[..r + 1] == t[..r] + [t[r]];
    if r == 7 {
      assert t[..r + 1] == t;
    }
  }

  /** Render an array as bits, highest global index first, with `sep` after every
      byte and `lsep` instead after every `every` bytes; nothing after the last bit. */
  method ToString(bytes: array<bv8>, sep: string, lsep: string, every: int) returns (s: string)
    ensures s == Render(bytes[..], sep, lsep, every)
  {
    ghost var v, n := bytes[..], bytes.Length;
    ghost var j, r := 0, 0;
    s := "";
    var i := bytes.Length * 8 - 1;
    while i >= 0
      invariant -1 <= i <= 8 * n - 1
      invariant (j < n && r < 8) || (j == n && r == 0)
      invariant i == 8 * (n - 1 - j) + 7 - r
      invariant s == RenderedBits(v, j, r, sep, lsep, every)
    {
      ghost var s0 := s;
      var bit := IsSetIn(i, bytes[..]);
      s := s + (if bit then "1" else "0");
      ghost var s1, tail := s, "";
      if i > 0 {
        if every > 0 && i % (8 * every) == 0 {
          s, tail := s + lsep, lsep;
        } else if i % 8 == 0 {
          s, tail := s + sep, sep;
        }
      }
      assert s == s1 + tail;
      BitPosition(v, j, r);
      assert s1 == s0 + [Digit(IsSet(7 - r, v[j]))];
      SeparatorAtBit(n, j, r, i, sep, lsep, every);
      assert tail == (if r == 7 then SeparatorAfter(n, j, sep, lsep, every) else "");
      RenderedBitsStep(v, j, r, sep, lsep, every);
      if r == 7 {
        assert s == s0 + [Digit(IsSet(7 - r, v[j]))] + SeparatorAfter(n, j, sep, lsep, every);
        assert s == RenderedBits(v, j + 1, 0, sep, lsep, every);
        j, r := j + 1, 0;
      } else {
        assert s == s0 + [Digit(IsSet(7 - r, v[j]))];
        assert s == RenderedBits(v, j, r + 1, sep, lsep, every);
        r := r + 1;
      }
      i := i - 1;
    }
  }

  /** The texts of a sequence of bytes. */
  function ByteTexts(bytes: seq<bv8>): (ts: seq<string>)
    ensures |ts| == |bytes|
  {
    seq(|bytes|, k requires 0 <= k < |bytes| => ByteText(bytes[k]))
  }

  /** The strings ts with sep between neighbours and nowhere else. */
  function Join(ts: seq<string>, sep: string): string
  {
    if |ts| == 0 then ""
    else if |ts| == 1 then ts[0]
    else Join(ts[..|ts| - 1], sep) + sep + ts[|ts| - 1]
  }

  lemma {:induction false} RenderPrefixUngrouped(bytes: seq<bv8>, j: nat, sep: string, lsep: string, every: int)
    requires 0 < j <= |bytes| && every <= 0
    ensures RenderPrefix(bytes, j, sep, lsep, every)
         == Join(ByteTexts(bytes[..j]), sep) + (if j < |bytes| then sep else "")
  {
    var ts := ByteTexts(bytes[..j]);
    if j > 1 {
      RenderPrefixUngrouped(bytes, j - 1, sep, lsep, every);
      assert ts[..j - 1] == ByteTexts(bytes[..j - 1]);
    }
  }

  /** Without grouping the rendering is the bytes' texts joined by sep. */
  lemma RenderUngrouped(bytes: seq<bv8>, sep: string, lsep: string, every: int)
    requires every <= 0
    ensures Render(bytes, sep, lsep, every) == Join(ByteTexts(bytes), sep)
  {
    if |bytes| > 0 {
      RenderPrefixUngrouped(bytes, |bytes|, sep, lsep, every);
      assert bytes[..|bytes|] == bytes;
    }
  }

  /** The group separator is never written when a group is at least as long as
      the array. */
  lemma {:induction false} RenderPrefixLongGroups(bytes: seq<bv8>, j: nat, sep: string, lsep: string, every: int)
    requires j <= |bytes| && every >= |bytes|
    ensures RenderPrefix(bytes, j, sep, lsep, every) == RenderPrefix(bytes, j, sep, lsep, 0)
  {
    if j > 0 {
      RenderPrefixLongGroups(bytes, j - 1, sep, lsep, every);
      var n := |bytes|;
      assert SeparatorAfter(n, j - 1, sep, lsep, every) == SeparatorAfter(n, j - 1, sep, lsep, 0) by {
        if j - 1 < n - 1 {
          var m := n - 1 - (j - 1);
          assert 0 < m < every;
          DivModUnique(m, every, 0, m);
        }
      }
    }
  }

  lemma RenderLongGroups(bytes: seq<bv8>, sep: string, lsep: string, every: int)
    requires every >= |bytes|
    ensures Render(bytes, sep, lsep, every) == Join(ByteTexts(bytes), sep)
  {
    RenderPrefixLongGroups(bytes, |bytes|, sep, lsep, every);
    RenderUngrouped(bytes, sep, lsep, 0);
  }

  /** With empty separators the rendering is exactly the 8n bits of the vector,
      global bit 8n-1 first and bit 0 last. */
  lemma {:induction false} RenderPrefixBits(bytes: seq<bv8>, j: nat, every: int)
    requires j <= |bytes|
    ensures |RenderPrefix(bytes, j, "", "", every)| == 8 * j
    ensures forall k :: 0 <= k < 8 * j ==>
      RenderPrefix(bytes, j, "", "", every)[k] == Digit(IsSetIn(8 * |bytes| - 1 - k, bytes))
  {
    if j > 0 {
      RenderPrefixBits(bytes, j - 1, every);
      var p := RenderPrefix(bytes, j - 1, "", "", every);
      var t := ByteText(bytes[j - 1]);
      assert RenderPrefix(bytes, j, "", "", every) == p + t;
      forall k | 8 * (j - 1) <= k < 8 * j
        ensures (p + t)[k] == Digit(IsSetIn(8 * |bytes| - 1 - k, bytes))
      {
        var r := k - 8 * (j - 1);
        BitPosition(bytes, j - 1, r);
      }
    }
  }

  lemma RenderIsBits(bytes: seq<bv8>, every: int)
    ensures |Render(bytes, "", "", every)| == 8 * |bytes|
    ensures forall k :: 0 <= k < 8 * |bytes| ==>
      Render(bytes, "", "", every)[k] == Digit(IsSetIn(8 * |bytes| - 1 - k, bytes))
  {
    RenderPrefixBits(bytes, |bytes|, every);
  }

  /** Render an array with sep between bytes and no grouping. The original
      passes a null group separator, which the renderer never writes when
      `every` is 0; here it is the empty string. */
  method ToStringSep(bytes: array<bv8>, sep: string) returns (s: string)
    ensures s == Render(bytes[..], sep, "", 0)
    ensures s == Join(ByteTexts(bytes[..]), sep)
  {
    s := ToString(bytes, sep, "", 0);
    RenderUngrouped(bytes[..], sep, "", 0);
  }

  /** Render an array with commas between bytes and a newline every eight bytes. */
  method ToStringDefault(bytes: array<bv8>) returns (s: string)
    ensures s == Render(bytes[..], ",", "\n", 8)
  {
    s := ToString(bytes, ",", "\n", 8);
  }

  // ---------------------------------------------------------------------------
  // The group test on 32-bit ints
  // ---------------------------------------------------------------------------

  /** A Java `int` result: the product 8*every is taken modulo 2^32 into the
      signed range. */
  function Wrap32(x: int): (w: int)
    ensures -0x8000_0000 <= w < 0x8000_0000
    ensures (w - x) % 0x1_0000_0000 == 0
  {
    (x + 0x8000_0000) % 0x1_0000_0000 - 0x8000_0000
  }

  /** Outcome of the group-boundary test `every > 0 && i % (8 * every) == 0`
      as the original evaluates it: either a truth value or the exception Java
      raises for a zero divisor. */
  datatype GroupTest = Boundary(at: bool) | DivisionByZero

  /** The group test as written, on Java ints. For a non-negative dividend
      Java's truncating remainder is zero exactly when the divisor's magnitude
      divides it, which Dafny's `%` also decides for a negative divisor. */
  function GroupTestAsWritten(i: int, every: int): (g: GroupTest)
    requires 0 <= i < 0x8000_0000 && -0x8000_0000 <= every < 0x8000_0000
    ensures g == DivisionByZero <==> every > 0 && every % 0x2000_0000 == 0
    ensures 0 < every < 0x1000_0000 ==> g == Boundary(i % (8 * every) == 0)
    ensures every <= 0 ==> g == Boundary(false)
  {
    if every <= 0 then Boundary(false)
    else
      var w := Wrap32(8 * every);
      if w == 0 then DivisionByZero else Boundary(i % w == 0)
  }

  /** A group size of 2^29 makes 8*every wrap to 0, so rendering any non-empty
      array (whose loop tests bit 7 > 0) divides by zero; the intended result,
      proved in RenderLongGroups, is the plain sep-joined text. */
  lemma GroupSizeOverflow()
    ensures GroupTestAsWritten(7, 0x2000_0000) == DivisionByZero
    ensures 8 * 0x2000_0000 == 0x1_0000_0000
  {
  }
}
