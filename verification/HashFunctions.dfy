/**
 The hash functions of src/hash_functions.c over 32-bit words and byte keys.

 The one-at-a-time hash is shown to be built from bijections of the 32-bit words, and the
 table-driven CRC is shown to be polynomial long division over the two-element field.
 */
module HashFunctions {

  type Key = seq<bv8>

  // ---------------------------------------------------------------------------
  // One-at-a-time hash
  // ---------------------------------------------------------------------------

  function AddShl10(h: bv32): bv32 { h + (h << 10) }
  function XorShr6(h: bv32): bv32 { h ^ (h >> 6) }
  function AddShl3(h: bv32): bv32 { h + (h << 3) }
  function XorShr11(h: bv32): bv32 { h ^ (h >> 11) }
  function AddShl15(h: bv32): bv32 { h + (h << 15) }

  /** One pass of the byte loop. */
  function Round(h: bv32, b: bv8): bv32 { XorShr6(AddShl10(h + (b as bv32))) }

  /** The byte loop, from start state h. */
  function Rounds(h: bv32, key: Key): bv32
    decreases |key|
  {
    if key == [] then h else Rounds(Round(h, key[0]), key[1..])
  }

  /** The three mixing steps after the loop. */
  function Finish(h: bv32): bv32 { AddShl15(XorShr11(AddShl3(h))) }

  function OneAtATime(key: Key): bv32 { Finish(Rounds(0, key)) }

  method OneAtATimeHash(key: Key) returns (hash: bv32)
    ensures hash == OneAtATime(key)
  {
    hide AddShl10, XorShr6, AddShl3, XorShr11, AddShl15;
    hash := 0;
    for i := 0 to |key|
      invariant Rounds(hash, key[i..]) == Rounds(0, key)
    {
      assert key[i..][1..] == key[i + 1..];
      hash := hash + (key[i] as bv32);
      hash := AddShl10(hash);
      hash := XorShr6(hash);
    }
    assert key[|key|..] == [];
    hash := AddShl3(hash);
    hash := XorShr11(hash);
    hash := AddShl15(hash);
  }

  function By1025(h: bv32): bv32 { h * 1025 }
  function By9(h: bv32): bv32 { h * 9 }
  function By32769(h: bv32): bv32 { h * 32769 }
  function Plus(h: bv32, b: bv8): bv32 { h + (b as bv32) }
  function XorAfter6(h: bv32): bv32 { h ^ (h >> 6) }
  function XorAfter11(h: bv32): bv32 { h ^ (h >> 11) }

  lemma Times1025(h: bv32)
    ensures AddShl10(h) == By1025(h)
  {
    assert h + (h << 10) == h * 1025;
  }

  lemma Times9(h: bv32)
    ensures AddShl3(h) == By9(h)
  {
    assert h + (h << 3) == h * 9;
  }

  lemma Times32769(h: bv32)
    ensures AddShl15(h) == By32769(h)
  {
    assert h + (h << 15) == h * 32769;
  }

  lemma XorSteps(h: bv32)
    ensures XorShr6(h) == XorAfter6(h) && XorShr11(h) == XorAfter11(h)
  {}

  lemma RoundOpens(h: bv32, b: bv8)
    ensures Round(h, b) == XorShr6(AddShl10(Plus(h, b)))
  {}

  /**
   The hash in arithmetic: the state starts at 0, a byte is added, the sum times 1025 is xored
   with itself shifted by 6; at the end the state times 9 is xored with itself shifted by 11 and
   multiplied by 32769.
   */
  lemma OneAtATimeInArithmetic(key: Key, b: bv8)
    ensures Rounds(0, []) == 0
    ensures Rounds(0, key + [b]) == XorAfter6(By1025(Plus(Rounds(0, key), b)))
    ensures OneAtATime(key) == By32769(XorAfter11(By9(Rounds(0, key))))
  {
    hide AddShl10, AddShl3, AddShl15, XorShr6, XorShr11, By1025, By9, By32769, Plus, XorAfter6, XorAfter11, Round;
    var h := Rounds(0, key);
    RoundsAppend(0, key, [b]);
    assert [b][1..] == [];
    assert Rounds(h, [b]) == Round(h, b);
    RoundOpens(h, b);
    Times1025(Plus(h, b));
    XorSteps(By1025(Plus(h, b)));
    Times9(h);
    XorSteps(By9(h));
    Times32769(XorAfter11(By9(h)));
  }

  /** The hash of no bytes and of the letter a. */
  lemma OneAtATimeOfFew()
    ensures OneAtATime([]) == 0 && OneAtATime([97]) == 0xCA2E_9442
  {
    hide OneAtATime, Rounds;
    var none: Key, a: Key := [], [97];
    OneAtATimeInArithmetic(none, 97);
    OneAtATimeInArithmetic(a, 0);
    assert none + [97] == a;
    assert Plus(0, 97) == 97;
    assert By1025(97) == 99425;
    assert XorAfter6(99425) == 0x1_8270;
    assert By9(0x1_8270) == 890352;
  }

  // Left inverses. The multipliers are the inverses of 1 + 2^10, 1 + 2^3 and 1 + 2^15 modulo
  // 2^32; a shift-and-xor by s is undone by shift-and-xors by s, 2s, 4s, ...

  function UnaddShl10(h: bv32): bv32 { h * 0xC00F_FC01 }
  function UnxorShr6(h: bv32): bv32 { var x := h ^ (h >> 6); var y := x ^ (x >> 12); y ^ (y >> 24) }
  function UnaddShl3(h: bv32): bv32 { h * 0x38E3_8E39 }
  function UnxorShr11(h: bv32): bv32 { var x := h ^ (h >> 11); x ^ (x >> 22) }
  function UnaddShl15(h: bv32): bv32 { h * 0x3FFF_8001 }

  function Subtract(h: bv32, b: bv8): bv32 { h - (b as bv32) }

  function Unround(h: bv32, b: bv8): bv32 { Subtract(UnaddShl10(UnxorShr6(h)), b) }
  function Unfinish(h: bv32): bv32 { UnaddShl3(UnxorShr11(UnaddShl15(h))) }

  lemma MultiplyBack10(h: bv32)
    ensures AddShl10(h) == h * 1025
    ensures UnaddShl10(h * 1025) == h
  {}

  lemma AddShl10Inverse(h: bv32)
    ensures UnaddShl10(AddShl10(h)) == h
  {
    hide AddShl10, UnaddShl10;
    MultiplyBack10(h);
  }

  lemma XorShr6Inverse(h: bv32)
    ensures UnxorShr6(XorShr6(h)) == h
  {
    assert UnxorShr6(h ^ (h >> 6)) == h;
  }

  lemma MultiplyBack3(h: bv32)
    ensures AddShl3(h) == h * 9
    ensures UnaddShl3(h * 9) == h
  {}

  lemma AddShl3Inverse(h: bv32)
    ensures UnaddShl3(AddShl3(h)) == h
  {
    hide AddShl3, UnaddShl3;
    MultiplyBack3(h);
  }

  lemma XorShr11Inverse(h: bv32)
    ensures UnxorShr11(XorShr11(h)) == h
  {
    assert UnxorShr11(h ^ (h >> 11)) == h;
  }

  lemma MultiplyBack15(h: bv32)
    ensures AddShl15(h) == h * 32769
    ensures UnaddShl15(h * 32769) == h
  {}

  lemma AddShl15Inverse(h: bv32)
    ensures UnaddShl15(AddShl15(h)) == h
  {
    hide AddShl15, UnaddShl15;
    MultiplyBack15(h);
  }

  /** A pass of the byte loop can be undone: for a fixed byte it is a bijection of the words. */
  lemma RoundInverse(h: bv32, b: bv8)
    ensures Unround(Round(h, b), b) == h
  {
    assert Subtract(h + (b as bv32), b) == h;
    hide AddShl10, XorShr6, UnaddShl10, UnxorShr6, Subtract;
    AddShl10Inverse(h + (b as bv32));
    XorShr6Inverse(AddShl10(h + (b as bv32)));
  }

  lemma FinishInverse(h: bv32)
    ensures Unfinish(Finish(h)) == h
  {
    hide AddShl3, XorShr11, AddShl15, UnaddShl3, UnxorShr11, UnaddShl15;
    AddShl3Inverse(h);
    XorShr11Inverse(AddShl3(h));
    AddShl15Inverse(XorShr11(AddShl3(h)));
  }

  lemma {:induction false} RoundsInjective(h1: bv32, h2: bv32, key: Key)
    requires Rounds(h1, key) == Rounds(h2, key)
    ensures h1 == h2
    decreases |key|
  {
    hide Round, Unround;
    if key != [] {
      RoundsInjective(Round(h1, key[0]), Round(h2, key[0]), key[1..]);
      RoundInverse(h1, key[0]);
      RoundInverse(h2, key[0]);
    }
  }

  lemma {:induction false} RoundsAppend(h: bv32, prefix: Key, suffix: Key)
    ensures Rounds(h, prefix + suffix) == Rounds(Rounds(h, prefix), suffix)
    decreases |prefix|
  {
    hide Round;
    if prefix == [] {
      assert prefix + suffix == suffix;
    } else {
      assert (prefix + suffix)[1..] == prefix[1..] + suffix;
      RoundsAppend(Round(h, prefix[0]), prefix[1..], suffix);
    }
  }

  lemma RoundSeparatesBytes(h: bv32, x: bv8, y: bv8)
    requires x != y
    ensures Round(h, x) != Round(h, y)
  {
    hide AddShl10, XorShr6, UnaddShl10, UnxorShr6;
    assert h + (x as bv32) != h + (y as bv32);
    AddShl10Inverse(h + (x as bv32));
    AddShl10Inverse(h + (y as bv32));
    XorShr6Inverse(AddShl10(h + (x as bv32)));
    XorShr6Inverse(AddShl10(h + (y as bv32)));
  }

  /** Changing one byte of a key, of any length and at any place, always changes its hash. */
  lemma OneByteChangeChangesHash(prefix: Key, x: bv8, y: bv8, suffix: Key)
    ensures OneAtATime(prefix + [x] + suffix) == OneAtATime(prefix + [y] + suffix) <==> x == y
  {
    hide Round, Finish, Unfinish;
    if x != y {
      var h := Rounds(0, prefix);
      RoundsAppend(0, prefix + [x], suffix);
      RoundsAppend(0, prefix + [y], suffix);
      RoundsAppend(0, prefix, [x]);
      RoundsAppend(0, prefix, [y]);
      assert Rounds(h, [x]) == Round(h, x) && Rounds(h, [y]) == Round(h, y);
      RoundSeparatesBytes(h, x, y);
      var a, b := Rounds(0, prefix + [x] + suffix), Rounds(0, prefix + [y] + suffix);
      if Finish(a) == Finish(b) {
        FinishInverse(a);
        FinishInverse(b);
        RoundsInjective(Round(h, x), Round(h, y), suffix);
      }
    }
  }

  // ---------------------------------------------------------------------------
  // CRC-32
  // ---------------------------------------------------------------------------

  function Xor(a: bv32, b: bv32): bv32 { a ^ b }

  /** One step of the shift register: multiply by x modulo the generator 0x04C11DB7. */
  function Shift(r: bv32): bv32 {
    if r >> 31 == 1 then (r << 1) ^ 0x04C1_1DB7 else r << 1
  }

  function Shift8(r: bv32): bv32 {
    Shift(Shift(Shift(Shift(Shift(Shift(Shift(Shift(r))))))))
  }

  // The 256-entry table, eight entries to a row.

  function CrcRows0(r: bv8): (row: seq<bv32>)
    ensures |row| == 8
  {
    if r == 0 then [0x00000000, 0x04c11db7, 0x09823b6e, 0x0d4326d9, 0x130476dc, 0x17c56b6b, 0x1a864db2, 0x1e475005]
    else if r == 1 then [0x2608edb8, 0x22c9f00f, 0x2f8ad6d6, 0x2b4bcb61, 0x350c9b64, 0x31cd86d3, 0x3c8ea00a, 0x384fbdbd]
    else if r == 2 then [0x4c11db70, 0x48d0c6c7, 0x4593e01e, 0x4152fda9, 0x5f15adac, 0x5bd4b01b, 0x569796c2, 0x52568b75]
    else if r == 3 then [0x6a1936c8, 0x6ed82b7f, 0x639b0da6, 0x675a1011, 0x791d4014, 0x7ddc5da3, 0x709f7b7a, 0x745e66cd]
    else if r == 4 then [0x9823b6e0, 0x9ce2ab57, 0x91a18d8e, 0x95609039, 0x8b27c03c, 0x8fe6dd8b, 0x82a5fb52, 0x8664e6e5]
    else if r == 5 then [0xbe2b5b58, 0xbaea46ef, 0xb7a96036, 0xb3687d81, 0xad2f2d84, 0xa9ee3033, 0xa4ad16ea, 0xa06c0b5d]
    else if r == 6 then [0xd4326d90, 0xd0f37027, 0xddb056fe, 0xd9714b49, 0xc7361b4c, 0xc3f706fb, 0xceb42022, 0xca753d95]
    else [0xf23a8028, 0xf6fb9d9f, 0xfbb8bb46, 0xff79a6f1, 0xe13ef6f4, 0xe5ffeb43, 0xe8bccd9a, 0xec7dd02d]
  }

  function CrcRows8(r: bv8): (row: seq<bv32>)
    ensures |row| == 8
  {
    if r == 8 then [0x34867077, 0x30476dc0, 0x3d044b19, 0x39c556ae, 0x278206ab, 0x23431b1c, 0x2e003dc5, 0x2ac12072]
    else if r == 9 then [0x128e9dcf, 0x164f8078, 0x1b0ca6a1, 0x1fcdbb16, 0x018aeb13, 0x054bf6a4, 0x0808d07d, 0x0cc9cdca]
    else if r == 10 then [0x7897ab07, 0x7c56b6b0, 0x71159069, 0x75d48dde, 0x6b93dddb, 0x6f52c06c, 0x6211e6b5, 0x66d0fb02]
    else if r == 11 then [0x5e9f46bf, 0x5a5e5b08, 0x571d7dd1, 0x53dc6066, 0x4d9b3063, 0x495a2dd4, 0x44190b0d, 0x40d816ba]
    else if r == 12 then [0xaca5c697, 0xa864db20, 0xa527fdf9, 0xa1e6e04e, 0xbfa1b04b, 0xbb60adfc, 0xb6238b25, 0xb2e29692]
    else if r == 13 then [0x8aad2b2f, 0x8e6c3698, 0x832f1041, 0x87ee0df6, 0x99a95df3, 0x9d684044, 0x902b669d, 0x94ea7b2a]
    else if r == 14 then [0xe0b41de7, 0xe4750050, 0xe9362689, 0xedf73b3e, 0xf3b06b3b, 0xf771768c, 0xfa325055, 0xfef34de2]
    else [0xc6bcf05f, 0xc27dede8, 0xcf3ecb31, 0xcbffd686, 0xd5b88683, 0xd1799b34, 0xdc3abded, 0xd8fba05a]
  }

  function CrcRows16(r: bv8): (row: seq<bv32>)
    ensures |row| == 8
  {
    if r == 16 then [0x690ce0ee, 0x6dcdfd59, 0x608edb80, 0x644fc637, 0x7a089632, 0x7ec98b85, 0x738aad5c, 0x774bb0eb]
    else if r == 17 then [0x4f040d56, 0x4bc510e1, 0x46863638, 0x42472b8f, 0x5c007b8a, 0x58c1663d, 0x558240e4, 0x51435d53]
    else if r == 18 then [0x251d3b9e, 0x21dc2629, 0x2c9f00f0, 0x285e1d47, 0x36194d42, 0x32d850f5, 0x3f9b762c, 0x3b5a6b9b]
    else if r == 19 then [0x0315d626, 0x07d4cb91, 0x0a97ed48, 0x0e56f0ff, 0x1011a0fa, 0x14d0bd4d, 0x19939b94, 0x1d528623]
    else if r == 20 then [0xf12f560e, 0xf5ee4bb9, 0xf8ad6d60, 0xfc6c70d7, 0xe22b20d2, 0xe6ea3d65, 0xeba91bbc, 0xef68060b]
    else if r == 21 then [0xd727bbb6, 0xd3e6a601, 0xdea580d8, 0xda649d6f, 0xc423cd6a, 0xc0e2d0dd, 0xcda1f604, 0xc960ebb3]
    else if r == 22 then [0xbd3e8d7e, 0xb9ff90c9, 0xb4bcb610, 0xb07daba7, 0xae3afba2, 0xaafbe615, 0xa7b8c0cc, 0xa379dd7b]
    else [0x9b3660c6, 0x9ff77d71, 0x92b45ba8, 0x9675461f, 0x8832161a, 0x8cf30bad, 0x81b02d74, 0x857130c3]
  }

  function CrcRows24(r: bv8): (row: seq<bv32>)
    ensures |row| == 8
  {
    if r == 24 then [0x5d8a9099, 0x594b8d2e, 0x5408abf7, 0x50c9b640, 0x4e8ee645, 0x4a4ffbf2, 0x470cdd2b, 0x43cdc09c]
    else if r == 25 then [0x7b827d21, 0x7f436096, 0x7200464f, 0x76c15bf8, 0x68860bfd, 0x6c47164a, 0x61043093, 0x65c52d24]
    else if r == 26 then [0x119b4be9, 0x155a565e, 0x18197087, 0x1cd86d30, 0x029f3d35, 0x065e2082, 0x0b1d065b, 0x0fdc1bec]
    else if r == 27 then [0x3793a651, 0x3352bbe6, 0x3e119d3f, 0x3ad08088, 0x2497d08d, 0x2056cd3a, 0x2d15ebe3, 0x29d4f654]
    else if r == 28 then [0xc5a92679, 0xc1683bce, 0xcc2b1d17, 0xc8ea00a0, 0xd6ad50a5, 0xd26c4d12, 0xdf2f6bcb, 0xdbee767c]
    else if r == 29 then [0xe3a1cbc1, 0xe760d676, 0xea23f0af, 0xeee2ed18, 0xf0a5bd1d, 0xf464a0aa, 0xf9278673, 0xfde69bc4]
    else if r == 30 then [0x89b8fd09, 0x8d79e0be, 0x803ac667, 0x84fbdbd0, 0x9abc8bd5, 0x9e7d9662, 0x933eb0bb, 0x97ffad0c]
    else [0xafb010b1, 0xab710d06, 0xa6322bdf, 0xa2f33668, 0xbcb4666d, 0xb8757bda, 0xb5365d03, 0xb1f740b4]
  }

  function CrcRow(r: bv8): (row: seq<bv32>)
    requires r < 32
    ensures |row| == 8
  {
    if r < 8 then CrcRows0(r) else if r < 16 then CrcRows8(r) else if r < 24 then CrcRows16(r) else CrcRows24(r)
  }

  function CrcTable(i: bv8): bv32 {
    var row := CrcRow(i >> 3);
    if i & 7 == 0 then row[0]
    else if i & 7 == 1 then row[1]
    else if i & 7 == 2 then row[2]
    else if i & 7 == 3 then row[3]
    else if i & 7 == 4 then row[4]
    else if i & 7 == 5 then row[5]
    else if i & 7 == 6 then row[6]
    else row[7]
  }

  function TableStep(crc: bv32, b: bv8): bv32 {
    Xor(crc << 8, CrcTable(((crc >> 24) as bv8) ^ b))
  }

  function TableSteps(crc: bv32, key: Key): bv32
    decreases |key|
  {
    if key == [] then crc else TableSteps(TableStep(crc, key[0]), key[1..])
  }

  method CrcHash(key: Key) returns (hash: bv32)
    ensures hash == !Remainder(PRELOAD, KeyBits(key) + Zeros(32))
  {
    hide TableStep, LongStep;
    var crc: bv32 := 0xFFFF_FFFF;
    for i := 0 to |key|
      invariant TableSteps(crc, key[i..]) == TableSteps(0xFFFF_FFFF, key)
    {
      assert key[i..][1..] == key[i + 1..];
      crc := TableStep(crc, key[i]);
    }
    assert key[|key|..] == [];
    CrcIsLongDivision(key);
    hash := !crc;
  }

  // ---- the reference: long division of a bit string, most significant bit first

  /** Bring down one more bit and subtract the generator when it fits. */
  function LongStep(r: bv32, bit: bool): bv32 {
    if bit then Xor(Shift(r), 1) else Shift(r)
  }

  /** The remainder of dividing the polynomial with these coefficients, carrying remainder r in. */
  function Remainder(r: bv32, bits: seq<bool>): bv32
    decreases |bits|
  {
    if bits == [] then r else Remainder(LongStep(r, bits[0]), bits[1..])
  }

  /** The remainder carried in whose effect equals an all-ones preload of the shift register. */
  const PRELOAD: bv32 := 0x46AF_6449

  function Zeros(n: nat): (z: seq<bool>) {
    seq(n, _ => false)
  }

  /** The first n bits of a byte, most significant first. */
  function TopBits(b: bv8, n: nat): seq<bool>
    decreases n
  {
    if n == 0 then [] else [b >> 7 == 1] + TopBits(b << 1, n - 1)
  }

  function KeyBits(key: Key): seq<bool> {
    if key == [] then [] else TopBits(key[0], 8) + KeyBits(key[1..])
  }

  // ---- linearity

  lemma TopBit(a: bv32)
    ensures a >> 31 == 1 || a >> 31 == 0
  {}

  lemma TopXor(a: bv32, b: bv32)
    ensures (a ^ b) >> 31 == (a >> 31) ^ (b >> 31)
    ensures (a ^ b) << 1 == (a << 1) ^ (b << 1)
  {}

  lemma XorComm(a: bv32, b: bv32)
    ensures Xor(a, b) == Xor(b, a)
  {}

  lemma XorAssoc(a: bv32, b: bv32, c: bv32)
    ensures Xor(a, Xor(b, c)) == Xor(Xor(a, b), c)
  {
    assert a ^ (b ^ c) == (a ^ b) ^ c;
  }

  lemma ShiftXorBothTop(a: bv32, b: bv32)
    requires a >> 31 == 1 && b >> 31 == 1
    ensures Shift(a ^ b) == Shift(a) ^ Shift(b)
  {
    TopXor(a, b);
    assert Shift(a ^ b) == (a << 1) ^ (b << 1);
  }

  lemma ShiftXorOneTop(a: bv32, b: bv32)
    requires b >> 31 == 0
    ensures Shift(a ^ b) == Shift(a) ^ Shift(b)
  {
    TopXor(a, b);
    TopBit(a);
  }

  lemma ShiftXor(a: bv32, b: bv32)
    ensures Shift(Xor(a, b)) == Xor(Shift(a), Shift(b))
  {
    hide Shift;
    TopBit(a);
    TopBit(b);
    if b >> 31 == 0 {
      ShiftXorOneTop(a, b);
    } else if a >> 31 == 0 {
      ShiftXorOneTop(b, a);
      XorComm(a, b);
      XorComm(Shift(a), Shift(b));
    } else {
      ShiftXorBothTop(a, b);
    }
  }

  function ShiftN(n: nat, r: bv32): bv32 {
    if n == 0 then r else ShiftN(n - 1, Shift(r))
  }

  lemma {:induction false} ShiftNXor(n: nat, a: bv32, b: bv32)
    ensures ShiftN(n, Xor(a, b)) == Xor(ShiftN(n, a), ShiftN(n, b))
    decreases n
  {
    hide Shift, Xor;
    if n > 0 {
      ShiftXor(a, b);
      ShiftNXor(n - 1, Shift(a), Shift(b));
    }
  }

  lemma {:induction false} ShiftNAdd(m: nat, n: nat, r: bv32)
    ensures ShiftN(m + n, r) == ShiftN(n, ShiftN(m, r))
    decreases m
  {
    hide Shift;
    if m > 0 {
      ShiftNAdd(m - 1, n, Shift(r));
    }
  }

  lemma ShiftNShift(n: nat, r: bv32)
    ensures ShiftN(n, Shift(r)) == Shift(ShiftN(n, r))
  {
    hide Shift;
    ShiftNAdd(n, 1, r);
    assert ShiftN(1, ShiftN(n, r)) == ShiftN(0, Shift(ShiftN(n, r)));
  }

  lemma ShiftNTwice(n: nat, r: bv32)
    ensures ShiftN(n + 2, r) == ShiftN(n, Shift(Shift(r)))
  {
    hide Shift;
    assert ShiftN(n + 2, r) == ShiftN(n + 1, Shift(r));
  }

  lemma Shift8IsShiftN(r: bv32)
    ensures ShiftN(8, r) == Shift8(r)
  {
    hide Shift;
    ShiftNTwice(6, r);
    var r2 := Shift(Shift(r));
    ShiftNTwice(4, r2);
    var r4 := Shift(Shift(r2));
    ShiftNTwice(2, r4);
    ShiftNTwice(0, Shift(Shift(r4)));
  }

  // ---- the table holds the remainders of the 256 byte polynomials

  function DividedRow(r: bv8): seq<bv32>
    requires r < 32
  {
    [Shift8(((8 * r) as bv32) << 24), Shift8(((8 * r + 1) as bv32) << 24),
     Shift8(((8 * r + 2) as bv32) << 24), Shift8(((8 * r + 3) as bv32) << 24),
     Shift8(((8 * r + 4) as bv32) << 24), Shift8(((8 * r + 5) as bv32) << 24),
     Shift8(((8 * r + 6) as bv32) << 24), Shift8(((8 * r + 7) as bv32) << 24)]
  }

  lemma RowsFrom0()
    ensures CrcRow(0) == DividedRow(0)
    ensures CrcRow(1) == DividedRow(1)
    ensures CrcRow(2) == DividedRow(2)
    ensures CrcRow(3) == DividedRow(3)
  {}

  lemma RowsFrom4()
    ensures CrcRow(4) == DividedRow(4)
    ensures CrcRow(5) == DividedRow(5)
    ensures CrcRow(6) == DividedRow(6)
    ensures CrcRow(7) == DividedRow(7)
  {}

  lemma RowsFrom8()
    ensures CrcRow(8) == DividedRow(8)
    ensures CrcRow(9) == DividedRow(9)
    ensures CrcRow(10) == DividedRow(10)
    ensures CrcRow(11) == DividedRow(11)
  {}

  lemma RowsFrom12()
    ensures CrcRow(12) == DividedRow(12)
    ensures CrcRow(13) == DividedRow(13)
    ensures CrcRow(14) == DividedRow(14)
    ensures CrcRow(15) == DividedRow(15)
  {}

  lemma RowsFrom16()
    ensures CrcRow(16) == DividedRow(16)
    ensures CrcRow(17) == DividedRow(17)
    ensures CrcRow(18) == DividedRow(18)
    ensures CrcRow(19) == DividedRow(19)
  {}

  lemma RowsFrom20()
    ensures CrcRow(20) == DividedRow(20)
    ensures CrcRow(21) == DividedRow(21)
    ensures CrcRow(22) == DividedRow(22)
    ensures CrcRow(23) == DividedRow(23)
  {}

  lemma RowsFrom24()
    ensures CrcRow(24) == DividedRow(24)
    ensures CrcRow(25) == DividedRow(25)
    ensures CrcRow(26) == DividedRow(26)
    ensures CrcRow(27) == DividedRow(27)
  {}

  lemma RowsFrom28()
    ensures CrcRow(28) == DividedRow(28)
    ensures CrcRow(29) == DividedRow(29)
    ensures CrcRow(30) == DividedRow(30)
    ensures CrcRow(31) == DividedRow(31)
  {}

  lemma RowIsDivided(r: bv8)
    requires r < 32
    ensures CrcRow(r) == DividedRow(r)
  {
    hide Shift8, CrcRow, DividedRow;
    if r < 4 {
      RowsFrom0();
    } else if r < 8 {
      RowsFrom4();
    } else if r < 12 {
      RowsFrom8();
    } else if r < 16 {
      RowsFrom12();
    } else if r < 20 {
      RowsFrom16();
    } else if r < 24 {
      RowsFrom20();
    } else if r < 28 {
      RowsFrom24();
    } else {
      RowsFrom28();
    }
  }

  lemma RowAndColumn(i: bv8)
    ensures i >> 3 < 32 && 8 * (i >> 3) + (i & 7) == i
    ensures i & 7 == 0 || i & 7 == 1 || i & 7 == 2 || i & 7 == 3 || i & 7 == 4 || i & 7 == 5 || i & 7 == 6 || i & 7 == 7
  {}

  lemma TableIsDivision(i: bv8)
    ensures CrcTable(i) == ShiftN(8, (i as bv32) << 24)
  {
    hide Shift8, CrcRow;
    RowAndColumn(i);
    RowIsDivided(i >> 3);
    Shift8IsShiftN((i as bv32) << 24);
  }

  // ---- a byte at a time against a bit at a time

  /** The shift register fed one message bit at its top end. */
  function RegisterStep(r: bv32, bit: bool): bv32 {
    if bit then Shift(Xor(r, 0x8000_0000)) else Shift(r)
  }

  function Register(r: bv32, bits: seq<bool>): bv32
    decreases |bits|
  {
    if bits == [] then r else Register(RegisterStep(r, bits[0]), bits[1..])
  }

  lemma {:induction false} RegisterAppend(r: bv32, s: seq<bool>, t: seq<bool>)
    ensures Register(r, s + t) == Register(Register(r, s), t)
    decreases |s|
  {
    hide RegisterStep;
    if s == [] {
      assert s + t == t;
    } else {
      assert (s + t)[1..] == s[1..] + t;
      RegisterAppend(RegisterStep(r, s[0]), s[1..], t);
    }
  }

  /** A byte placed at the top of the register. */
  function Lead(b: bv8): bv32 { (b as bv32) << 24 }

  lemma LeadBit(b: bv8)
    ensures b >> 7 == 1 ==> Lead(b) == Xor(0x8000_0000, ((b << 1) as bv32) << 23)
    ensures b >> 7 != 1 ==> Lead(b) == ((b << 1) as bv32) << 23
    ensures Shift(((b << 1) as bv32) << 23) == Lead(b << 1)
  {
    assert (((b << 1) as bv32) << 23) >> 31 == 0;
  }

  /** Xoring a byte in at the top and shifting once is feeding its top bit. */
  lemma FeedTopBit(crc: bv32, b: bv8)
    ensures Shift(Xor(crc, Lead(b))) == Xor(RegisterStep(crc, b >> 7 == 1), Lead(b << 1))
  {
    hide Shift, Xor, Lead;
    LeadBit(b);
    var low := ((b << 1) as bv32) << 23;
    if b >> 7 == 1 {
      XorAssoc(crc, 0x8000_0000, low);
      ShiftXor(Xor(crc, 0x8000_0000), low);
    } else {
      ShiftXor(crc, low);
    }
  }

  function ShlN(b: bv8, n: nat): bv8
    decreases n
  {
    if n == 0 then b else ShlN(b << 1, n - 1)
  }

  lemma {:induction false} FeedTopBits(crc: bv32, b: bv8, n: nat)
    ensures ShiftN(n, Xor(crc, Lead(b))) == Xor(Register(crc, TopBits(b, n)), Lead(ShlN(b, n)))
    decreases n
  {
    hide Shift, RegisterStep, Xor, Lead;
    if n > 0 {
      FeedTopBit(crc, b);
      FeedTopBits(RegisterStep(crc, b >> 7 == 1), b << 1, n - 1);
      assert TopBits(b, n)[1..] == TopBits(b << 1, n - 1);
    }
  }

  lemma AllShiftedOut(crc: bv32, b: bv8)
    ensures Xor(crc, Lead(ShlN(b, 8))) == crc
  {
    assert ShlN(b, 8) == ShlN(b << 2, 6) == ShlN(b << 4, 4) == ShlN(b << 6, 2) == ShlN(b << 8, 0);
  }

  lemma NoFeedback(x: bv32)
    ensures Shift(x & 0x00FF_FFFF) == (x & 0x00FF_FFFF) << 1
    ensures Shift((x & 0x00FF_FFFF) << 1) == (x & 0x00FF_FFFF) << 2
    ensures Shift((x & 0x00FF_FFFF) << 2) == (x & 0x00FF_FFFF) << 3
    ensures Shift((x & 0x00FF_FFFF) << 3) == (x & 0x00FF_FFFF) << 4
    ensures Shift((x & 0x00FF_FFFF) << 4) == (x & 0x00FF_FFFF) << 5
    ensures Shift((x & 0x00FF_FFFF) << 5) == (x & 0x00FF_FFFF) << 6
    ensures Shift((x & 0x00FF_FFFF) << 6) == (x & 0x00FF_FFFF) << 7
    ensures Shift((x & 0x00FF_FFFF) << 7) == x << 8
  {}

  lemma LowBitsShift(x: bv32)
    ensures Shift8(x & 0x00FF_FFFF) == x << 8
  {
    hide Shift;
    NoFeedback(x);
  }

  lemma ByteSplit(crc: bv32, b: bv8)
    ensures Xor(crc, Lead(b)) == Xor(crc & 0x00FF_FFFF, Lead(((crc >> 24) as bv8) ^ b))
  {
    assert Xor(crc, (b as bv32) << 24) == Xor(crc & 0x00FF_FFFF, ((((crc >> 24) as bv8) ^ b) as bv32) << 24);
  }

  /** One table step is eight bit steps. */
  lemma TableStepIsEightBits(crc: bv32, b: bv8)
    ensures TableStep(crc, b) == Register(crc, TopBits(b, 8))
  {
    hide Shift, Shift8, CrcTable, RegisterStep, Xor, ShiftN, TopBits, ShlN;
    var i := ((crc >> 24) as bv8) ^ b;
    ByteSplit(crc, b);
    ShiftNXor(8, crc & 0x00FF_FFFF, Lead(i));
    Shift8IsShiftN(crc & 0x00FF_FFFF);
    LowBitsShift(crc);
    TableIsDivision(i);
    FeedTopBits(crc, b, 8);
    AllShiftedOut(Register(crc, TopBits(b, 8)), b);
  }

  lemma {:induction false} TableStepsAreRegister(crc: bv32, key: Key)
    ensures TableSteps(crc, key) == Register(crc, KeyBits(key))
    decreases |key|
  {
    hide TableStep, RegisterStep;
    if key != [] {
      TableStepIsEightBits(crc, key[0]);
      TableStepsAreRegister(TableStep(crc, key[0]), key[1..]);
      RegisterAppend(crc, TopBits(key[0], 8), KeyBits(key[1..]));
    }
  }

  // ---- the register form against long division

  lemma ThirtyTwoShifts(r: bv32)
    ensures ShiftN(32, r) == Shift8(Shift8(Shift8(Shift8(r))))
  {
    hide Shift, Shift8;
    ShiftNAdd(8, 24, r);
    ShiftNAdd(8, 16, ShiftN(8, r));
    ShiftNAdd(8, 8, ShiftN(8, ShiftN(8, r)));
    Shift8IsShiftN(r);
    Shift8IsShiftN(Shift8(r));
    Shift8IsShiftN(Shift8(Shift8(r)));
    Shift8IsShiftN(Shift8(Shift8(Shift8(r))));
  }

  lemma DividedConstants()
    ensures Shift8(Shift8(Shift8(Shift8(1)))) == Shift(0x8000_0000)
    ensures Shift8(Shift8(Shift8(Shift8(PRELOAD)))) == 0xFFFF_FFFF
  {
  }

  lemma RegisterStepIsLongStep(r: bv32, bit: bool)
    ensures RegisterStep(ShiftN(32, r), bit) == ShiftN(32, LongStep(r, bit))
  {
    hide Shift, Shift8, Xor, ShiftN;
    ShiftNShift(32, r);
    if bit {
      ThirtyTwoShifts(1);
      DividedConstants();
      ShiftXor(ShiftN(32, r), 0x8000_0000);
      ShiftNXor(32, Shift(r), 1);
    }
  }

  lemma {:induction false} RegisterIsRemainder(r: bv32, bits: seq<bool>)
    ensures Register(ShiftN(32, r), bits) == ShiftN(32, Remainder(r, bits))
    decreases |bits|
  {
    hide RegisterStep, LongStep, ShiftN;
    if bits != [] {
      RegisterStepIsLongStep(r, bits[0]);
      RegisterIsRemainder(LongStep(r, bits[0]), bits[1..]);
    }
  }

  lemma {:induction false} RemainderAppend(r: bv32, s: seq<bool>, t: seq<bool>)
    ensures Remainder(r, s + t) == Remainder(Remainder(r, s), t)
    decreases |s|
  {
    hide LongStep;
    if s == [] {
      assert s + t == t;
    } else {
      assert (s + t)[1..] == s[1..] + t;
      RemainderAppend(LongStep(r, s[0]), s[1..], t);
    }
  }

  lemma {:induction false} RemainderZeros(r: bv32, n: nat)
    ensures Remainder(r, Zeros(n)) == ShiftN(n, r)
    decreases n
  {
    hide Shift;
    if n > 0 {
      assert Zeros(n)[1..] == Zeros(n - 1);
      RemainderZeros(Shift(r), n - 1);
    }
  }

  /**
   The shift register, preloaded with all ones and fed any key through the table, holds the
   remainder of dividing the key followed by 32 zero bits, bit by bit, by the generator
   polynomial, with PRELOAD carried in.
   */
  lemma CrcIsLongDivision(key: Key)
    ensures TableSteps(0xFFFF_FFFF, key) == Remainder(PRELOAD, KeyBits(key) + Zeros(32))
  {
    hide TableStep, LongStep, Shift8, RegisterStep, ShiftN;
    TableStepsAreRegister(0xFFFF_FFFF, key);
    ThirtyTwoShifts(PRELOAD);
    DividedConstants();
    RegisterIsRemainder(PRELOAD, KeyBits(key));
    RemainderAppend(PRELOAD, KeyBits(key), Zeros(32));
    RemainderZeros(Remainder(PRELOAD, KeyBits(key)), 32);
  }
}
